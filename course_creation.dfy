/** app/adicionar_disciplina.py: creation of a course on every leader that accepts a
    connection and does not hold a course of that name yet. */
module CourseCreation {
  import opened Types
  import opened Storage

  /** The three messages reported at the end. */
  datatype AddVerdict = AllLeaders | SomeLeaders | NoLeader

  function Verdict(successCount: nat, total: nat): AddVerdict
  {
    if successCount == total then AllLeaders
    else if successCount > 0 then SomeLeaders
    else NoLeader
  }

  /** The check-then-insert at one leader goes through: reachable, no course of that name
      (deleted ones included) and the insert commits. */
  predicate InsertsAt(db: LeaderDB, l: LeaderId, name: string, net: Network)
  {
    Commits(net, l) && CountNamed(db.courses, name) == 0
  }

  function InsertedAt(dbs: map<LeaderId, LeaderDB>, name: string, net: Network): set<LeaderId>
    requires forall l: LeaderId :: l in dbs
  {
    set l | l in AllServers && InsertsAt(dbs[l], l, name, net)
  }

  /** The leader `l` after its check-then-insert transaction. */
  function StateAfterAdd(db: LeaderDB, l: LeaderId, name: string, capacity: int, net: Network): LeaderDB
  {
    if InsertsAt(db, l, name, net) then InsertCourse(db, name, capacity) else db
  }

  /** One iteration of `adicionar_disciplina`: connect, check for a course of that name
      and insert it, all in one transaction; reports whether the insert committed. */
  method AddCourseAt(c: Storage.Cluster, s: LeaderId, name: string, capacity: int, net: Network)
    returns (inserted: bool)
    requires forall l: LeaderId :: l in c.dbs
    modifies c
    ensures forall l: LeaderId :: l in c.dbs
    ensures inserted <==> InsertsAt(old(c.dbs)[s], s, name, net)
    ensures c.dbs == old(c.dbs)[s := StateAfterAdd(old(c.dbs)[s], s, name, capacity, net)]
  {
    if s !in net.reachable || CountNamed(c.dbs[s].courses, name) > 0 || s in net.failing {
      assert c.dbs == c.dbs[s := c.dbs[s]];
      return false;
    }
    c.dbs := c.dbs[s := InsertCourse(c.dbs[s], name, capacity)];
    inserted := true;
  }

  /** The check-then-insert keeps the schema: the name is new and gets the next id. */
  lemma AddKeepsSchema(db: LeaderDB, l: LeaderId, name: string, capacity: int, net: Network)
    requires Schema(db)
    ensures Schema(StateAfterAdd(db, l, name, capacity, net))
  {
    if InsertsAt(db, l, name, net) {
      InsertCourseKeepsSchema(db, name, capacity);
    }
  }

  /** The loop of `adicionar_disciplina` over every leader of the configuration,
      counting the leaders where the insert committed. */
  method AddEverywhere(c: Storage.Cluster, name: string, capacity: int, net: Network)
    returns (successCount: nat)
    requires c.Valid()
    modifies c
    ensures c.Valid()
    ensures forall l :: c.dbs[l] == StateAfterAdd(old(c.dbs)[l], l, name, capacity, net)
    ensures successCount == |InsertedAt(old(c.dbs), name, net)|
  {
    successCount := 0;
    ghost var done: set<LeaderId> := {};
    for i := 0 to |AllServers|
      invariant forall l: LeaderId :: l in c.dbs
      invariant forall l :: c.dbs[l] == if l in AllServers[..i]
                                        then StateAfterAdd(old(c.dbs)[l], l, name, capacity, net)
                                        else old(c.dbs)[l]
      invariant forall l :: l in done <==> l in AllServers[..i] && InsertsAt(old(c.dbs)[l], l, name, net)
      invariant successCount == |done|
    {
      assert AllServers[..i + 1] == AllServers[..i] + [AllServers[i]];
      var s := AllServers[i];
      assert s !in AllServers[..i];
      var inserted := AddCourseAt(c, s, name, capacity, net);
      if inserted {
        done := done + {s};
        successCount := successCount + 1;
      }
    }
    AllServersListsEveryLeader();
    forall l: LeaderId ensures Schema(c.dbs[l]) {
      AddKeepsSchema(old(c.dbs)[l], l, name, capacity, net);
    }
    assert done == InsertedAt(old(c.dbs), name, net);
  }

  /** `adicionar_disciplina`. */
  method AddCourse(c: Storage.Cluster, name: string, capacity: int, net: Network)
    returns (successCount: nat, verdict: AddVerdict)
    requires c.Valid()
    modifies c
    ensures c.Valid()
    ensures forall l :: c.dbs[l] == if InsertsAt(old(c.dbs)[l], l, name, net)
                                    then InsertCourse(old(c.dbs)[l], name, capacity)
                                    else old(c.dbs)[l]
    ensures successCount == |InsertedAt(old(c.dbs), name, net)| <= |AllServers|
    ensures verdict == AllLeaders <==> forall l :: InsertsAt(old(c.dbs)[l], l, name, net)
    ensures verdict == NoLeader <==> forall l :: !InsertsAt(old(c.dbs)[l], l, name, net)
    ensures forall l :: UniqueCourseNames(old(c.dbs)[l].courses) ==> UniqueCourseNames(c.dbs[l].courses)
    ensures forall l :: Commits(net, l) ==> FindCourse(c.dbs[l].courses, name).Some?
  {
    successCount := AddEverywhere(c, name, capacity, net);
    VerdictOfInserted(old(c.dbs), name, net);
    verdict := Verdict(successCount, |AllServers|);
    CatalogAfterAdd(old(c.dbs), c.dbs, name, capacity, net);
  }

  /** Every leader either gained the course or already had one of that name, and none
      gained a duplicate name. */
  lemma CatalogAfterAdd(before: map<LeaderId, LeaderDB>, after: map<LeaderId, LeaderDB>,
                        name: string, capacity: int, net: Network)
    requires forall l: LeaderId :: l in before && l in after
    requires forall l :: after[l] == if InsertsAt(before[l], l, name, net)
                                     then InsertCourse(before[l], name, capacity)
                                     else before[l]
    ensures forall l :: UniqueCourseNames(before[l].courses) ==> UniqueCourseNames(after[l].courses)
    ensures forall l :: Commits(net, l) ==> FindCourse(after[l].courses, name).Some?
  {
    forall l | UniqueCourseNames(before[l].courses)
      ensures UniqueCourseNames(after[l].courses)
    {
      if InsertsAt(before[l], l, name, net) {
        InsertCourseKeepsNamesUnique(before[l], name, capacity);
      }
    }
    forall l | Commits(net, l) ensures FindCourse(after[l].courses, name).Some? {
      if InsertsAt(before[l], l, name, net) {
        InsertedCourseIsFound(before[l], name, capacity);
      }
    }
  }

  /** The verdict reads "every leader" exactly when the insert went through at every leader,
      and "no leader" exactly when it went through nowhere. */
  lemma VerdictOfInserted(dbs: map<LeaderId, LeaderDB>, name: string, net: Network)
    requires forall l: LeaderId :: l in dbs
    ensures |InsertedAt(dbs, name, net)| <= |AllServers|
    ensures Verdict(|InsertedAt(dbs, name, net)|, |AllServers|) == AllLeaders <==>
              forall l :: InsertsAt(dbs[l], l, name, net)
    ensures Verdict(|InsertedAt(dbs, name, net)|, |AllServers|) == NoLeader <==>
              forall l :: !InsertsAt(dbs[l], l, name, net)
  {
    var s := InsertedAt(dbs, name, net);
    SubsetOfLeaders(s);
    assert A in s <==> InsertsAt(dbs[A], A, name, net);
    assert B in s <==> InsertsAt(dbs[B], B, name, net);
    if forall l :: InsertsAt(dbs[l], l, name, net) {
      assert InsertsAt(dbs[A], A, name, net) && InsertsAt(dbs[B], B, name, net);
    }
    if forall l :: !InsertsAt(dbs[l], l, name, net) {
      assert !InsertsAt(dbs[A], A, name, net) && !InsertsAt(dbs[B], B, name, net);
    }
    if InsertsAt(dbs[A], A, name, net) && InsertsAt(dbs[B], B, name, net) {
      forall l ensures InsertsAt(dbs[l], l, name, net) {
        assert l.A? || l.B?;
      }
    }
    if !InsertsAt(dbs[A], A, name, net) && !InsertsAt(dbs[B], B, name, net) {
      forall l ensures !InsertsAt(dbs[l], l, name, net) {
        assert l.A? || l.B?;
      }
    }
  }

  lemma SubsetOfLeaders(s: set<LeaderId>)
    ensures |s| <= 2
    ensures |s| == 2 <==> A in s && B in s
    ensures |s| == 0 <==> A !in s && B !in s
  {
    assert forall x :: x in s ==> x == A || x == B;
    if A in s && B in s {
      assert s == {A, B};
    } else if A in s {
      assert s == {A};
    } else if B in s {
      assert s == {B};
    } else {
      assert s == {};
    }
  }

  /** The course inserted by `adicionar_disciplina` is found by name afterwards. */
  lemma InsertedCourseIsFound(db: LeaderDB, name: string, capacity: int)
    ensures FindCourse(InsertCourse(db, name, capacity).courses, name).Some?
  {
    var cs := InsertCourse(db, name, capacity).courses;
    assert cs[|db.courses|] in cs;
  }
}
