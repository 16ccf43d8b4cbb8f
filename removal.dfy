/** app/remover.py: removal of a student from a course at the entry leader, the
    re-ranking of the remaining queue and the replication of both. */
module Removal {
  import opened Types
  import opened Ordering
  import opened Storage
  import opened Ranking
  import Enrollment

  /** The list comprehension that drops the tuples whose id was deleted locally. */
  function Without(s: seq<Entry>, ids: set<RecordId>): (r: seq<Entry>)
    ensures |r| <= |s|
    ensures forall e :: e in r <==> e in s && e.id !in ids
  {
    if s == [] then []
    else
      var n := |s| - 1;
      Without(s[..n], ids) + (if s[n].id in ids then [] else [s[n]])
  }

  /** The filter keeps the order of what it keeps. */
  lemma {:induction false} WithoutKeepsOrder(s: seq<Entry>, ids: set<RecordId>)
    requires Sorted(s)
    ensures Sorted(Without(s, ids))
  {
    if s != [] {
      var n := |s| - 1;
      assert Sorted(s[..n]);
      WithoutKeepsOrder(s[..n], ids);
      var p := Without(s[..n], ids);
      forall e | e in p ensures e.ts <= s[n].ts {
        var i :| 0 <= i < n && s[..n][i] == e;
      }
    }
  }

  predicate HasName(s: seq<Entry>, name: string)
  {
    exists i :: 0 <= i < |s| && s[i].name == name
  }

  /** The dictionary `registros_filtrados` after the loop over `s`: for each name, the first
      tuple of that name whose timestamp is strictly smaller than every earlier one. */
  function Best(s: seq<Entry>): (m: map<string, Entry>)
    ensures forall name :: name in m <==> HasName(s, name)
  {
    if s == [] then map[]
    else
      var n := |s| - 1;
      var m := Best(s[..n]);
      assert forall name :: HasName(s, name) <==> HasName(s[..n], name) || s[n].name == name by {
        forall name ensures HasName(s, name) <==> HasName(s[..n], name) || s[n].name == name {
          if HasName(s, name) && s[n].name != name {
            var i :| 0 <= i < |s| && s[i].name == name;
            assert s[..n][i] == s[i];
          }
          if HasName(s[..n], name) {
            var i :| 0 <= i < n && s[..n][i].name == name;
          }
        }
      }
      Keep(m, s[n])
  }

  /** One step of the loop: `e` replaces the kept tuple of its name when there is none or
      when it is strictly earlier. */
  function Keep(m: map<string, Entry>, e: Entry): map<string, Entry>
  {
    if e.name !in m || e.ts < m[e.name].ts then m[e.name := e] else m
  }

  /** The insertion order of the keys of `registros_filtrados`: names in order of first
      appearance (assigning to a key already present does not move it). */
  function FirstSeen(s: seq<Entry>): (r: seq<string>)
    ensures forall name :: name in r <==> HasName(s, name)
  {
    if s == [] then []
    else
      var n := |s| - 1;
      var r := FirstSeen(s[..n]);
      assert forall name :: HasName(s, name) <==> HasName(s[..n], name) || s[n].name == name by {
        forall name ensures HasName(s, name) <==> HasName(s[..n], name) || s[n].name == name {
          if HasName(s, name) && s[n].name != name {
            var i :| 0 <= i < |s| && s[i].name == name;
            assert s[..n][i] == s[i];
          }
          if HasName(s[..n], name) {
            var i :| 0 <= i < n && s[..n][i].name == name;
          }
        }
      }
      if s[n].name in r then r else r + [s[n].name]
  }

  function ValuesIn(order: seq<string>, m: map<string, Entry>): (r: seq<Entry>)
    requires forall name :: name in order ==> name in m
    ensures |r| == |order|
    ensures forall k :: 0 <= k < |order| ==> r[k] == m[order[k]]
  {
    if order == [] then []
    else ValuesIn(order[..|order| - 1], m) + [m[order[|order| - 1]]]
  }

  /** `list(registros_filtrados.values())`. */
  function Collapsed(s: seq<Entry>): seq<Entry>
  {
    ValuesIn(FirstSeen(s), Best(s))
  }

  /** The loop of step 3 of `reavaliar_e_atualizar_status` over a dictionary keyed by
      the student name, then the list of its values. */
  method KeepEarliestPerStudent(rows: seq<Entry>) returns (kept: seq<Entry>)
    ensures kept == Collapsed(rows)
  {
    var order: seq<string> := [];
    var byName: map<string, Entry> := map[];
    for i := 0 to |rows|
      invariant order == FirstSeen(rows[..i])
      invariant byName == Best(rows[..i])
    {
      assert rows[..i + 1][..i] == rows[..i];
      var e := rows[i];
      if e.name !in byName || e.ts < byName[e.name].ts {
        if e.name !in byName {
          order := order + [e.name];
        }
        byName := byName[e.name := e];
      }
      assert byName == Keep(Best(rows[..i]), e);
    }
    assert rows[..|rows|] == rows;
    kept := [];
    for k := 0 to |order|
      invariant kept == ValuesIn(order[..k], byName)
    {
      assert order[..k + 1][..k] == order[..k];
      kept := kept + [byName[order[k]]];
    }
    assert order[..|order|] == order;
  }

  /** What the dictionary keeps for a name: a tuple of `s` with that name whose timestamp is
      the smallest among the tuples of that name, the first such one in `s`. */
  predicate EarliestOf(s: seq<Entry>, name: string, e: Entry)
  {
    exists i :: 0 <= i < |s| && s[i] == e && e.name == name
      && (forall j :: 0 <= j < |s| && s[j].name == name ==> e.ts <= s[j].ts)
      && (forall j :: 0 <= j < i && s[j].name == name ==> e.ts < s[j].ts)
  }

  lemma BestIsEarliest(s: seq<Entry>, name: string)
    requires HasName(s, name)
    ensures EarliestOf(s, name, Best(s)[name])
  {
    var i := BestIndex(s, name);
  }

  /** The position in `s` of the tuple the dictionary keeps for `name`. */
  lemma {:induction false} BestIndex(s: seq<Entry>, name: string) returns (i: nat)
    requires HasName(s, name)
    ensures i < |s| && s[i] == Best(s)[name] && s[i].name == name
    ensures forall j :: 0 <= j < |s| && s[j].name == name ==> s[i].ts <= s[j].ts
    ensures forall j :: 0 <= j < i && s[j].name == name ==> s[i].ts < s[j].ts
  {
    var n := |s| - 1;
    var p := s[..n];
    assert Best(s) == Keep(Best(p), s[n]);
    if HasName(p, name) {
      var i0 := BestIndex(p, name);
      assert forall j :: 0 <= j < n ==> p[j] == s[j];
      i := BestIndexStep(s, name, i0, Best(p));
    } else {
      i := n;
      forall j | 0 <= j < n ensures s[j].name != name {
        assert p[j] == s[j];
      }
    }
  }

  lemma BestIndexStep(s: seq<Entry>, name: string, i0: nat, m: map<string, Entry>) returns (i: nat)
    requires s != [] && i0 < |s| - 1
    requires name in m && s[i0] == m[name] && s[i0].name == name
    requires forall j :: 0 <= j < |s| - 1 && s[j].name == name ==> s[i0].ts <= s[j].ts
    requires forall j :: 0 <= j < i0 && s[j].name == name ==> s[i0].ts < s[j].ts
    ensures i < |s| && s[i] == Keep(m, s[|s| - 1])[name] && s[i].name == name
    ensures forall j :: 0 <= j < |s| && s[j].name == name ==> s[i].ts <= s[j].ts
    ensures forall j :: 0 <= j < i && s[j].name == name ==> s[i].ts < s[j].ts
  {
    var n := |s| - 1;
    if s[n].name == name && s[n].ts < s[i0].ts {
      i := n;
    } else {
      i := i0;
    }
  }

  /** Step 3 leaves one tuple per student: the names are distinct, every student of the
      input is present, and each kept tuple is that student's earliest one. */
  lemma CollapsedOnePerStudent(s: seq<Entry>)
    ensures forall k, l :: 0 <= k < l < |Collapsed(s)| ==> Collapsed(s)[k].name != Collapsed(s)[l].name
    ensures forall e :: e in s ==> exists k :: 0 <= k < |Collapsed(s)| && Collapsed(s)[k].name == e.name
    ensures forall k :: 0 <= k < |Collapsed(s)| ==>
              Collapsed(s)[k] in s && EarliestOf(s, Collapsed(s)[k].name, Collapsed(s)[k])
  {
    CollapsedNamesDistinct(s);
    CollapsedCoversStudents(s);
    CollapsedAreEarliest(s);
  }

  lemma CollapsedNamesDistinct(s: seq<Entry>)
    ensures forall k, l :: 0 <= k < l < |Collapsed(s)| ==> Collapsed(s)[k].name != Collapsed(s)[l].name
  {
    var order, m, c := FirstSeen(s), Best(s), Collapsed(s);
    FirstSeenDistinct(s);
    forall k | 0 <= k < |c| ensures c[k].name == order[k] {
      BestIsEarliest(s, order[k]);
    }
  }

  lemma CollapsedCoversStudents(s: seq<Entry>)
    ensures forall e :: e in s ==> exists k :: 0 <= k < |Collapsed(s)| && Collapsed(s)[k].name == e.name
  {
    var order, m, c := FirstSeen(s), Best(s), Collapsed(s);
    forall e | e in s ensures exists k :: 0 <= k < |c| && c[k].name == e.name {
      var i :| 0 <= i < |s| && s[i] == e;
      assert HasName(s, e.name);
      var k :| 0 <= k < |order| && order[k] == e.name;
      BestIsEarliest(s, e.name);
      assert c[k] == m[e.name];
    }
  }

  lemma CollapsedAreEarliest(s: seq<Entry>)
    ensures forall k :: 0 <= k < |Collapsed(s)| ==>
              Collapsed(s)[k] in s && EarliestOf(s, Collapsed(s)[k].name, Collapsed(s)[k])
  {
    var order, m, c := FirstSeen(s), Best(s), Collapsed(s);
    forall k | 0 <= k < |c| ensures c[k] in s && EarliestOf(s, c[k].name, c[k]) {
      assert c[k] == m[order[k]];
      BestIsEarliest(s, order[k]);
    }
  }

  lemma {:induction false} FirstSeenDistinct(s: seq<Entry>)
    ensures forall k, l :: 0 <= k < l < |FirstSeen(s)| ==> FirstSeen(s)[k] != FirstSeen(s)[l]
  {
    if s != [] {
      FirstSeenDistinct(s[..|s| - 1]);
    }
  }

  /** When the input is ordered by timestamp, the strict `<` never replaces a kept tuple:
      the dictionary keeps each student's first tuple. */
  lemma SortedKeepsFirst(s: seq<Entry>, name: string, i: nat)
    requires Sorted(s)
    requires i < |s| && s[i].name == name
    requires forall j :: 0 <= j < i ==> s[j].name != name
    ensures Best(s)[name] == s[i]
  {
    assert HasName(s, name);
    BestIsEarliest(s, name);
    var b := Best(s)[name];
    var x :| 0 <= x < |s| && s[x] == b && b.name == name
             && (forall j :: 0 <= j < |s| && s[j].name == name ==> b.ts <= s[j].ts)
             && (forall j :: 0 <= j < x && s[j].name == name ==> b.ts < s[j].ts);
    assert i <= x;
    assert s[i].ts <= s[x].ts;
    assert x == i;
  }

  lemma InSortByTs(s: seq<Entry>, e: Entry)
    ensures e in SortByTs(s) <==> e in s
  {
    assert e in SortByTs(s) <==> e in multiset(SortByTs(s));
    assert e in s <==> e in multiset(s);
  }

  /** `reavaliar_e_atualizar_status`. The update transaction at `target` opens a new
      connection; `updateCommits` says whether it opens and commits. `view` is the merged
      view read after the local delete and `queue` the ranked queue. */
  method ReevaluateAfterRemoval(c: Storage.Cluster, target: LeaderId, course: CourseId, capacity: int,
                                removed: set<RecordId>, net: Network, updateCommits: bool)
    returns (updates: seq<Update>, ghost view: seq<Entry>, ghost queue: seq<Entry>)
    requires c.Valid()
    modifies c
    ensures c.Valid()
    ensures Sorted(view) && multiset(view) == multiset(Enrollment.MergedRows(old(c.dbs), net.reachable, course))
    ensures queue == SortByTs(Collapsed(Without(view, removed)))
    ensures updates == if updateCommits then Diff(queue, capacity, None) else []
    ensures c.dbs == old(c.dbs)[target := old(c.dbs)[target].(enrollments :=
                       WithStatusUpdates(old(c.dbs)[target].enrollments, updates))]
  {
    var rows := Enrollment.Reconcile(c, course, net.reachable);
    view := rows;
    var cleaned := Without(rows, removed);
    var kept := KeepEarliestPerStudent(cleaned);
    var finals := SortByTs(kept);
    queue := finals;
    var _, _, diff := Reevaluate(finals, capacity, None);
    updates := ApplyAtTarget(c, target, diff, updateCommits);
  }

  /** Step 5 of `reavaliar_e_atualizar_status`: an empty diff opens no transaction;
      otherwise the updates run at the target in one transaction, which commits when
      `updateCommits` holds. Returns the updates applied. */
  method ApplyAtTarget(c: Storage.Cluster, target: LeaderId, diff: seq<Update>, updateCommits: bool)
    returns (updates: seq<Update>)
    requires c.Valid()
    modifies c
    ensures c.Valid()
    ensures updates == if updateCommits then diff else []
    ensures c.dbs == old(c.dbs)[target := old(c.dbs)[target].(enrollments :=
                       WithStatusUpdates(old(c.dbs)[target].enrollments, updates))]
  {
    if diff == [] || !updateCommits {
      updates := [];
      assert c.dbs == c.dbs[target := c.dbs[target]];
      return;
    }
    var applied := RunStatusUpdates(c.dbs[target], diff);
    assert applied.courses == c.dbs[target].courses && applied.nextCourseId == c.dbs[target].nextCourseId;
    c.dbs := c.dbs[target := applied];
    updates := diff;
  }

  /** The ranked queue after a removal contains no removed id, one tuple per student, each
      the earliest of that student, and is ordered by timestamp. */
  lemma QueueAfterRemoval(view: seq<Entry>, removed: set<RecordId>)
    ensures forall e :: e in SortByTs(Collapsed(Without(view, removed))) ==> e in view && e.id !in removed
    ensures Sorted(SortByTs(Collapsed(Without(view, removed))))
    ensures forall e :: e in view && e.id !in removed ==>
              exists f :: f in SortByTs(Collapsed(Without(view, removed))) && f.name == e.name
  {
    QueueHoldsNoRemovedId(view, removed);
    SortByTsSorted(Collapsed(Without(view, removed)));
    QueueKeepsEveryStudent(view, removed);
  }

  lemma QueueHoldsNoRemovedId(view: seq<Entry>, removed: set<RecordId>)
    ensures forall e :: e in SortByTs(Collapsed(Without(view, removed))) ==> e in view && e.id !in removed
  {
    var w := Without(view, removed);
    var c := Collapsed(w);
    CollapsedAreEarliest(w);
    forall e | e in SortByTs(c) ensures e in w {
      InSortByTs(c, e);
      var k :| 0 <= k < |c| && c[k] == e;
    }
  }

  lemma QueueKeepsEveryStudent(view: seq<Entry>, removed: set<RecordId>)
    ensures forall e :: e in view && e.id !in removed ==>
              exists f :: f in SortByTs(Collapsed(Without(view, removed))) && f.name == e.name
  {
    var w := Without(view, removed);
    var c := Collapsed(w);
    CollapsedCoversStudents(w);
    forall e | e in view && e.id !in removed
      ensures exists f :: f in SortByTs(c) && f.name == e.name
    {
      assert e in w;
      var k :| 0 <= k < |c| && c[k].name == e.name;
      InSortByTs(c, c[k]);
    }
  }

  /** No two records of the queue share an id. */
  predicate DistinctIds(q: seq<Entry>)
  {
    forall i, j :: 0 <= i < j < |q| ==> q[i].id != q[j].id
  }

  /** Applying the status diff of a queue whose ids are distinct, at a leader whose rows
      carry the queue's statuses, stores for every record but the candidate the status
      computed for its position. */
  lemma DiffStoresComputedStatus(m: map<RecordId, Types.Enrollment>, q: seq<Entry>, capacity: int,
                                 cand: Option<RecordId>)
    requires DistinctIds(q)
    requires forall i :: 0 <= i < |q| ==> q[i].id in m && m[q[i].id].status == q[i].status
    ensures forall i :: 0 <= i < |q| && !IsCandidate(q[i], cand) ==>
              var w := WithStatusUpdates(m, Diff(q, capacity, cand));
              q[i].id in w && w[q[i].id].status == Relabel(q, capacity)[i].status
  {
    var w := WithStatusUpdates(m, Diff(q, capacity, cand));
    forall i | 0 <= i < |q| && !IsCandidate(q[i], cand)
      ensures q[i].id in w && w[q[i].id].status == Relabel(q, capacity)[i].status
    {
      StoredAtPosition(m, q, capacity, cand, i);
    }
  }

  lemma {:induction false} StoredAtPosition(m: map<RecordId, Types.Enrollment>, q: seq<Entry>, capacity: int,
                                            cand: Option<RecordId>, i: nat)
    requires DistinctIds(q)
    requires forall j :: 0 <= j < |q| ==> q[j].id in m && m[q[j].id].status == q[j].status
    requires i < |q| && !IsCandidate(q[i], cand)
    ensures q[i].id in WithStatusUpdates(m, Diff(q, capacity, cand))
    ensures WithStatusUpdates(m, Diff(q, capacity, cand))[q[i].id].status == Computed(i + 1, capacity)
  {
    var n := |q| - 1;
    var p := q[..n];
    var d := Diff(p, capacity, cand);
    var w := WithStatusUpdates(m, d);
    var v := Computed(n + 1, capacity);
    DiffLastStep(m, q, capacity, cand);
    PrefixOfDistinct(q);
    if i < n {
      StoredAtPosition(m, p, capacity, cand, i);
      SetStatusOther(w, q[n].id, v, q[i].id);
    } else {
      StatusUpdatesShape(m, d);
      if Changes(q, n, capacity, cand) {
        SetStatusSame(w, q[n].id, v);
      } else {
        DiffAvoidsId(p, capacity, cand, q[n].id);
        StatusUpdatesUntouched(m, d, q[n].id);
      }
    }
  }

  /** The diff of a queue is that of its prefix, plus the update of the last record when
      it changes. */
  lemma DiffLastStep(m: map<RecordId, Types.Enrollment>, q: seq<Entry>, capacity: int, cand: Option<RecordId>)
    requires q != []
    ensures var n := |q| - 1;
            var w := WithStatusUpdates(m, Diff(q[..n], capacity, cand));
            WithStatusUpdates(m, Diff(q, capacity, cand))
              == if Changes(q, n, capacity, cand) then SetStatus(w, q[n].id, Computed(n + 1, capacity)) else w
  {
    var n := |q| - 1;
    var d := Diff(q[..n], capacity, cand);
    if Changes(q, n, capacity, cand) {
      var u := UpdateAt(q, n, capacity);
      assert Diff(q, capacity, cand) == d + [u];
      assert (d + [u])[..|d|] == d;
    } else {
      assert Diff(q, capacity, cand) == d;
    }
  }

  lemma PrefixOfDistinct(q: seq<Entry>)
    requires DistinctIds(q) && q != []
    ensures var n := |q| - 1;
            && DistinctIds(q[..n])
            && (forall j :: 0 <= j < n ==> q[..n][j] == q[j])
            && (forall j :: 0 <= j < n ==> q[..n][j].id != q[n].id)
  {
  }

  lemma SetStatusOther(w: map<RecordId, Types.Enrollment>, id: RecordId, st: Status, x: RecordId)
    requires x != id
    ensures x in SetStatus(w, id, st) <==> x in w
    ensures x in w ==> SetStatus(w, id, st)[x] == w[x]
  {
  }

  lemma SetStatusSame(w: map<RecordId, Types.Enrollment>, id: RecordId, st: Status)
    requires id in w
    ensures id in SetStatus(w, id, st) && SetStatus(w, id, st)[id].status == st
  {
  }

  /** With two tuples of one id in the view (which the tuple dedup lets through, see
      `Enrollment.TupleDedupKeepsConflictingCopies`), both positions emit an update for
      that id and the later one decides what the leader stores: the record computed
      ACEITA at position 1 is stored REJEITADA. */
  lemma ConflictingCopiesStoreLastUpdate()
    ensures var q := [Entry(7, "ana", 1, Rejected), Entry(7, "ana", 1, Accepted)];
            var m := map[7 := Types.Enrollment(1, "ana", 1, Accepted, None)];
            var w := WithStatusUpdates(m, Diff(q, 1, None));
            && Relabel(q, 1)[0].status == Accepted
            && 7 in w && w[7].status == Rejected
  {
    var q := [Entry(7, "ana", 1, Rejected), Entry(7, "ana", 1, Accepted)];
    var m := map[7 := Types.Enrollment(1, "ana", 1, Accepted, None)];
    assert q[..1] == [q[0]] && q[..1][..0] == [];
    var ups := [Update(7, "ana", Accepted, 1), Update(7, "ana", Rejected, 1)];
    assert Diff(q, 1, None) == ups;
    assert ups[..1] == [ups[0]] && ups[..1][..0] == [];
  }

  /** After the delete and the updates at a leader, no row of the student remains in that
      course; every other row is kept with all its fields but the status, and a row no
      update names is kept as it was. */
  lemma RemovalClearsStudent(db: LeaderDB, student: string, course: CourseId, ups: seq<Update>)
    ensures var d := RemovalBatch(db, StudentIds(db, student, course), ups);
            && StudentIds(d, student, course) == {}
            && d.courses == db.courses && d.tombstones == db.tombstones
            && d.enrollments.Keys == db.enrollments.Keys - StudentIds(db, student, course)
            && (forall id :: id in d.enrollments ==>
                  d.enrollments[id] == db.enrollments[id].(status := d.enrollments[id].status))
            && (forall id :: id in d.enrollments && (forall k :: 0 <= k < |ups| ==> ups[k].id != id) ==>
                  d.enrollments[id] == db.enrollments[id])
  {
    var ids := StudentIds(db, student, course);
    var del := DeleteIds(db, ids);
    DeleteStudentRows(db, student, course);
    StatusUpdatesEffect(del.enrollments, ups);
    var d := RemovalBatch(db, ids, ups);
    forall id | id in d.enrollments ensures id !in StudentIds(d, student, course) {
      assert d.enrollments[id] == del.enrollments[id].(status := d.enrollments[id].status);
    }
  }

  datatype RemoveOutcome =
    | TargetOffline
    | CourseNotFound
    | RecordNotFound
    | PersistenceFailure
    | Withdrawn(ids: set<RecordId>, updates: seq<Update>, replicated: set<LeaderId>)

  /** Leader `l`'s tables after step 4 of `remover_aluno`: the target was handled in
      steps 2 and 3; any other leader commits the delete and the updates or rolls back. */
  function RemovalAt(db: LeaderDB, l: LeaderId, target: LeaderId, net: Network,
                     ids: set<RecordId>, ups: seq<Update>): (r: LeaderDB)
    ensures l != target && Commits(net, l) ==> r == RemovalBatch(db, ids, ups)
    ensures l == target || !Commits(net, l) ==> r == db
  {
    if l == target then db else AfterTx(db, l, net, Some(RemovalBatch(db, ids, ups)))
  }

  /** One replica's turn in step 4 of `remover_aluno`: the target is skipped; another
      leader deletes the ids and runs the status updates in one transaction, committed
      together or rolled back. */
  method RemoveAtReplica(c: Storage.Cluster, s: LeaderId, target: LeaderId, net: Network,
                         ids: set<RecordId>, ups: seq<Update>)
    returns (committed: bool)
    requires forall l: LeaderId :: l in c.dbs
    modifies c
    ensures forall l: LeaderId :: l in c.dbs
    ensures committed <==> s != target && Commits(net, s)
    ensures c.dbs == old(c.dbs)[s := RemovalAt(old(c.dbs)[s], s, target, net, ids, ups)]
  {
    if s == target || !Commits(net, s) {
      assert c.dbs == c.dbs[s := c.dbs[s]];
      return false;
    }
    var deleted := DeleteIds(c.dbs[s], ids);
    var applied := RunStatusUpdates(deleted, ups);
    c.dbs := c.dbs[s := applied];
    committed := true;
  }

  /** Step 4 of `remover_aluno`: every other leader that accepts a connection deletes the
      ids and runs the updates in one transaction; a failing one is rolled back. */
  method ReplicateRemoval(c: Storage.Cluster, target: LeaderId, net: Network,
                          ids: set<RecordId>, ups: seq<Update>)
    returns (replicated: set<LeaderId>)
    requires c.Valid()
    modifies c
    ensures c.Valid()
    ensures forall l :: c.dbs[l] == RemovalAt(old(c.dbs)[l], l, target, net, ids, ups)
    ensures forall l :: l in replicated <==> l != target && Commits(net, l)
  {
    replicated := {};
    for i := 0 to |AllServers|
      invariant forall l: LeaderId :: l in c.dbs
      invariant forall l :: c.dbs[l] == if l in AllServers[..i]
                                        then RemovalAt(old(c.dbs)[l], l, target, net, ids, ups)
                                        else old(c.dbs)[l]
      invariant forall l :: l in replicated <==> l in AllServers[..i] && l != target && Commits(net, l)
    {
      assert AllServers[..i + 1] == AllServers[..i] + [AllServers[i]];
      var s := AllServers[i];
      assert s !in AllServers[..i];
      var committed := RemoveAtReplica(c, s, target, net, ids, ups);
      if committed {
        replicated := replicated + {s};
      }
    }
    AllServersListsEveryLeader();
    forall l: LeaderId ensures Schema(c.dbs[l]) {
      RemovalBatchKeepsSchema(old(c.dbs)[l], ids, ups);
    }
  }

  /** The committed `DELETE FROM matriculas WHERE id IN %s` at the target. */
  method DeleteAtTarget(c: Storage.Cluster, target: LeaderId, ids: set<RecordId>)
    requires c.Valid()
    modifies c
    ensures c.Valid()
    ensures c.dbs == old(c.dbs)[target := DeleteIds(old(c.dbs)[target], ids)]
  {
    assert DeleteIds(c.dbs[target], ids).courses == c.dbs[target].courses;
    c.dbs := c.dbs[target := DeleteIds(c.dbs[target], ids)];
  }

  /** `remover_aluno`. `updateCommits` is the outcome of the status-update transaction that
      the re-ranking opens at the entry leader. */
  method Remove(c: Storage.Cluster, target: LeaderId, student: string, courseName: string,
                net: Network, updateCommits: bool)
    returns (outcome: RemoveOutcome, ghost view: seq<Entry>)
    requires c.Valid()
    modifies c
    ensures c.Valid()
    ensures outcome.TargetOffline? <==> target !in net.reachable
    ensures outcome.CourseNotFound? <==>
              target in net.reachable && Enrollment.LookupCourse(old(c.dbs)[target], courseName).None?
    ensures outcome.RecordNotFound? <==>
              target in net.reachable && Enrollment.LookupCourse(old(c.dbs)[target], courseName).Some?
              && StudentIds(old(c.dbs)[target], student,
                            Enrollment.LookupCourse(old(c.dbs)[target], courseName).value.id) == {}
    ensures outcome.PersistenceFailure? <==>
              target in net.reachable && Enrollment.LookupCourse(old(c.dbs)[target], courseName).Some?
              && StudentIds(old(c.dbs)[target], student,
                            Enrollment.LookupCourse(old(c.dbs)[target], courseName).value.id) != {}
              && target in net.failing
    ensures !outcome.Withdrawn? ==> c.dbs == old(c.dbs)
    ensures outcome.Withdrawn? ==>
              var k := Enrollment.LookupCourse(old(c.dbs)[target], courseName).value;
              var ids := StudentIds(old(c.dbs)[target], student, k.id);
              var afterDelete := old(c.dbs)[target := DeleteIds(old(c.dbs)[target], ids)];
              && outcome.ids == ids
              && (k.capacity <= 0 ==> outcome.updates == [])
              && (k.capacity > 0 ==>
                    && Sorted(view)
                    && multiset(view) == multiset(Enrollment.MergedRows(afterDelete, net.reachable, k.id))
                    && outcome.updates == if updateCommits
                                          then Diff(SortByTs(Collapsed(Without(view, ids))), k.capacity, None)
                                          else [])
              && c.dbs[target] == RemovalBatch(old(c.dbs)[target], ids, outcome.updates)
              && (forall l :: l != target ==>
                    c.dbs[l] == AfterTx(old(c.dbs)[l], l, net, Some(RemovalBatch(old(c.dbs)[l], ids, outcome.updates))))
              && (forall l :: l in outcome.replicated <==> l != target && Commits(net, l))
  {
    view := [];
    if target !in net.reachable {
      return TargetOffline, view;
    }
    var found := Enrollment.LookupCourse(c.dbs[target], courseName);
    if found.None? {
      return CourseNotFound, view;
    }
    var k := found.value;
    var ids := StudentIds(c.dbs[target], student, k.id);
    if ids == {} {
      return RecordNotFound, view;
    }
    if target in net.failing {
      return PersistenceFailure, view;
    }
    var updates, replicated;
    updates, replicated, view := Withdraw(c, target, k, ids, net, updateCommits);
    outcome := Withdrawn(ids, updates, replicated);
  }

  /** Steps 2 to 4 of `remover_aluno` once the target's delete is known to commit: the
      delete, the re-ranking when the capacity is positive, and the replication. */
  method Withdraw(c: Storage.Cluster, target: LeaderId, k: Course, ids: set<RecordId>, net: Network,
                  updateCommits: bool)
    returns (updates: seq<Update>, replicated: set<LeaderId>, ghost view: seq<Entry>)
    requires c.Valid()
    modifies c
    ensures c.Valid()
    ensures var afterDelete := old(c.dbs)[target := DeleteIds(old(c.dbs)[target], ids)];
            && (k.capacity <= 0 ==> updates == [])
            && (k.capacity > 0 ==>
                  && Sorted(view)
                  && multiset(view) == multiset(Enrollment.MergedRows(afterDelete, net.reachable, k.id))
                  && updates == if updateCommits
                                then Diff(SortByTs(Collapsed(Without(view, ids))), k.capacity, None)
                                else [])
            && c.dbs[target] == RemovalBatch(old(c.dbs)[target], ids, updates)
            && (forall l :: l != target ==>
                  c.dbs[l] == AfterTx(old(c.dbs)[l], l, net, Some(RemovalBatch(old(c.dbs)[l], ids, updates))))
            && (forall l :: l in replicated <==> l != target && Commits(net, l))
  {
    updates, view := DeleteAndRerank(c, target, k, ids, net, updateCommits);
    replicated := ReplicateRemoval(c, target, net, ids, updates);
  }

  /** Steps 2 and 3 of `remover_aluno`: the committed delete at the target, then the
      re-ranking when the capacity is positive; the other leaders are not touched yet. */
  method DeleteAndRerank(c: Storage.Cluster, target: LeaderId, k: Course, ids: set<RecordId>, net: Network,
                         updateCommits: bool)
    returns (updates: seq<Update>, ghost view: seq<Entry>)
    requires c.Valid()
    modifies c
    ensures c.Valid()
    ensures var afterDelete := old(c.dbs)[target := DeleteIds(old(c.dbs)[target], ids)];
            && (k.capacity <= 0 ==> updates == [])
            && (k.capacity > 0 ==>
                  && Sorted(view)
                  && multiset(view) == multiset(Enrollment.MergedRows(afterDelete, net.reachable, k.id))
                  && updates == if updateCommits
                                then Diff(SortByTs(Collapsed(Without(view, ids))), k.capacity, None)
                                else [])
    ensures c.dbs == old(c.dbs)[target := RemovalBatch(old(c.dbs)[target], ids, updates)]
  {
    view := [];
    ghost var before := c.dbs;
    DeleteAtTarget(c, target, ids);
    updates := [];
    if k.capacity > 0 {
      ghost var queue;
      updates, view, queue := ReevaluateAfterRemoval(c, target, k.id, k.capacity, ids, net, updateCommits);
    }
    RemovalBatchAt(before, target, ids, updates);
  }

  /** Deleting the ids at `target` and then running the updates there is that leader's
      removal batch, and leaves the other leaders as they were. */
  lemma RemovalBatchAt(m: map<LeaderId, LeaderDB>, target: LeaderId, ids: set<RecordId>, ups: seq<Update>)
    requires target in m
    ensures var d := DeleteIds(m[target], ids);
            m[target := d][target := d.(enrollments := WithStatusUpdates(d.enrollments, ups))]
            == m[target := RemovalBatch(m[target], ids, ups)]
    ensures ups == [] ==> m[target := DeleteIds(m[target], ids)] == m[target := RemovalBatch(m[target], ids, ups)]
  {
  }
}
