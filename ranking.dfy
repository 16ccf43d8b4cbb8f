/** First-come-first-served ranking of a course's queue against its capacity
    (`reavaliar_posicao` in app/matricular.py, and the ranking loop of
    `reavaliar_e_atualizar_status` in app/remover.py, which is the same loop without a
    candidate). */
module Ranking {
  import opened Types
  import opened Ordering

  /** The status computed for the record at 1-based position `p`. Every record takes a
      position, whatever its stored status, REMOVIDA included. */
  function Computed(p: int, capacity: int): Status
  {
    if p <= capacity then Accepted else Rejected
  }

  predicate IsCandidate(e: Entry, candidate: Option<RecordId>)
  {
    candidate.Some? && e.id == candidate.value
  }

  /** The record at 0-based index `i` is not the candidate and its stored status differs
      from the one computed for its position. */
  predicate Changes(q: seq<Entry>, i: int, capacity: int, candidate: Option<RecordId>)
    requires 0 <= i < |q|
  {
    !IsCandidate(q[i], candidate) && Computed(i + 1, capacity) != q[i].status
  }

  /** The update emitted for the record at 0-based index `i`. */
  function UpdateAt(q: seq<Entry>, i: int, capacity: int): Update
    requires 0 <= i < |q|
  {
    Update(q[i].id, q[i].name, Computed(i + 1, capacity), q[i].ts)
  }

  /** The status changes of a queue, in queue order (specification of `updates_a_replicar`). */
  function Diff(q: seq<Entry>, capacity: int, candidate: Option<RecordId>): seq<Update>
  {
    if q == [] then []
    else
      var n := |q| - 1;
      Diff(q[..n], capacity, candidate)
        + (if Changes(q, n, capacity, candidate) then [UpdateAt(q, n, capacity)] else [])
  }

  /** The 0-based indices of the records that change, in increasing order. */
  function ChangedPositions(q: seq<Entry>, capacity: int, candidate: Option<RecordId>): seq<nat>
  {
    if q == [] then []
    else
      var n := |q| - 1;
      ChangedPositions(q[..n], capacity, candidate)
        + (if Changes(q, n, capacity, candidate) then [n] else [])
  }

  /** `Diff` lists exactly the records whose computed status differs from the stored one,
      one update per such record, in queue order, and nothing else. */
  lemma DiffIsChangedRecords(q: seq<Entry>, capacity: int, candidate: Option<RecordId>)
    ensures |Diff(q, capacity, candidate)| == |ChangedPositions(q, capacity, candidate)|
    ensures forall k :: 0 <= k < |ChangedPositions(q, capacity, candidate)| ==>
              ChangedPositions(q, capacity, candidate)[k] < |q|
              && Diff(q, capacity, candidate)[k]
                 == UpdateAt(q, ChangedPositions(q, capacity, candidate)[k], capacity)
    ensures forall k, l :: 0 <= k < l < |ChangedPositions(q, capacity, candidate)| ==>
              ChangedPositions(q, capacity, candidate)[k] < ChangedPositions(q, capacity, candidate)[l]
    ensures forall i :: 0 <= i < |q| ==>
              (Changes(q, i, capacity, candidate) <==> i in ChangedPositions(q, capacity, candidate))
  {
    DiffFollowsPositions(q, capacity, candidate);
    PositionsIncrease(q, capacity, candidate);
    PositionsAreChanges(q, capacity, candidate);
  }

  /** The prefix of a queue has the same records, so the same changes, at its indices. */
  lemma ChangesOnPrefix(q: seq<Entry>, n: nat, capacity: int, candidate: Option<RecordId>)
    requires n <= |q|
    ensures forall i :: 0 <= i < n ==>
              (Changes(q[..n], i, capacity, candidate) <==> Changes(q, i, capacity, candidate))
              && UpdateAt(q[..n], i, capacity) == UpdateAt(q, i, capacity)
  {
    assert forall i :: 0 <= i < n ==> q[..n][i] == q[i];
  }

  lemma {:induction false} DiffFollowsPositions(q: seq<Entry>, capacity: int, candidate: Option<RecordId>)
    ensures |Diff(q, capacity, candidate)| == |ChangedPositions(q, capacity, candidate)|
    ensures forall k :: 0 <= k < |ChangedPositions(q, capacity, candidate)| ==>
              ChangedPositions(q, capacity, candidate)[k] < |q|
              && Diff(q, capacity, candidate)[k]
                 == UpdateAt(q, ChangedPositions(q, capacity, candidate)[k], capacity)
  {
    if q != [] {
      var n := |q| - 1;
      var p := q[..n];
      DiffFollowsPositions(p, capacity, candidate);
      ChangesOnPrefix(q, n, capacity, candidate);
      var cp, d := ChangedPositions(p, capacity, candidate), Diff(p, capacity, candidate);
      assert forall k :: 0 <= k < |cp| ==> UpdateAt(p, cp[k], capacity) == UpdateAt(q, cp[k], capacity);
      assert ChangedPositions(q, capacity, candidate)
             == cp + (if Changes(q, n, capacity, candidate) then [n] else []);
      assert Diff(q, capacity, candidate)
             == d + (if Changes(q, n, capacity, candidate) then [UpdateAt(q, n, capacity)] else []);
    }
  }

  lemma {:induction false} PositionsIncrease(q: seq<Entry>, capacity: int, candidate: Option<RecordId>)
    ensures forall k :: 0 <= k < |ChangedPositions(q, capacity, candidate)| ==>
              ChangedPositions(q, capacity, candidate)[k] < |q|
    ensures forall k, l :: 0 <= k < l < |ChangedPositions(q, capacity, candidate)| ==>
              ChangedPositions(q, capacity, candidate)[k] < ChangedPositions(q, capacity, candidate)[l]
  {
    if q != [] {
      var n := |q| - 1;
      PositionsIncrease(q[..n], capacity, candidate);
    }
  }

  lemma {:induction false} PositionsAreChanges(q: seq<Entry>, capacity: int, candidate: Option<RecordId>)
    ensures forall i :: 0 <= i < |q| ==>
              (Changes(q, i, capacity, candidate) <==> i in ChangedPositions(q, capacity, candidate))
  {
    if q != [] {
      var n := |q| - 1;
      var p := q[..n];
      PositionsAreChanges(p, capacity, candidate);
      PositionsIncrease(p, capacity, candidate);
      ChangesOnPrefix(q, n, capacity, candidate);
    }
  }

  lemma CandidateNeverUpdated(q: seq<Entry>, capacity: int, id: RecordId)
    ensures forall u :: u in Diff(q, capacity, Some(id)) ==> u.id != id
  {
    DiffIsChangedRecords(q, capacity, Some(id));
    var cp := ChangedPositions(q, capacity, Some(id));
    forall u | u in Diff(q, capacity, Some(id)) ensures u.id != id {
      var k :| 0 <= k < |Diff(q, capacity, Some(id))| && Diff(q, capacity, Some(id))[k] == u;
      assert Changes(q, cp[k], capacity, Some(id));
    }
  }

  /** No update is needed exactly when every non-candidate record already holds the
      status computed for its position. */
  lemma DiffEmptyIff(q: seq<Entry>, capacity: int, candidate: Option<RecordId>)
    ensures Diff(q, capacity, candidate) == [] <==>
              forall i :: 0 <= i < |q| ==> !Changes(q, i, capacity, candidate)
  {
    DiffIsChangedRecords(q, capacity, candidate);
    var cp := ChangedPositions(q, capacity, candidate);
    if cp != [] {
      assert Changes(q, cp[0], capacity, candidate);
    }
  }

  /** A REMOVIDA record that is not the candidate still takes a queue position and is
      always rewritten to the status of that position. */
  lemma RemovedRecordIsRanked(q: seq<Entry>, i: nat, capacity: int, candidate: Option<RecordId>)
    requires i < |q| && q[i].status == Removed && !IsCandidate(q[i], candidate)
    ensures UpdateAt(q, i, capacity) in Diff(q, capacity, candidate)
    ensures UpdateAt(q, i, capacity).newStatus == (if i + 1 <= capacity then Accepted else Rejected)
  {
    DiffIsChangedRecords(q, capacity, candidate);
    var cp := ChangedPositions(q, capacity, candidate);
    assert Changes(q, i, capacity, candidate);
    var k :| 0 <= k < |cp| && cp[k] == i;
    assert Diff(q, capacity, candidate)[k] == UpdateAt(q, i, capacity);
  }

  /** The queue with every record given the status the ranking computes for its
      position. A leader stores these statuses once the updates are applied only when the
      queue's ids are distinct (see `Removal.DiffStoresComputedStatus`). */
  function Relabel(q: seq<Entry>, capacity: int): (r: seq<Entry>)
    ensures |r| == |q|
  {
    seq(|q|, i requires 0 <= i < |q| => q[i].(status := Computed(i + 1, capacity)))
  }

  /** No update of the diff names an id that no record of the queue carries. */
  lemma {:induction false} DiffAvoidsId(q: seq<Entry>, capacity: int, candidate: Option<RecordId>, id: RecordId)
    requires forall j :: 0 <= j < |q| ==> q[j].id != id
    ensures forall k :: 0 <= k < |Diff(q, capacity, candidate)| ==> Diff(q, capacity, candidate)[k].id != id
  {
    if q != [] {
      var n := |q| - 1;
      assert forall j :: 0 <= j < n ==> q[..n][j] == q[j];
      DiffAvoidsId(q[..n], capacity, candidate, id);
    }
  }

  function CountAccepted(s: seq<Entry>): nat
  {
    if s == [] then 0
    else CountAccepted(s[..|s| - 1]) + (if s[|s| - 1].status == Accepted then 1 else 0)
  }

  /** FCFS admission: exactly min(capacity, n) records are accepted (none when the
      capacity is not positive), and they are the first ones of the queue. */
  lemma {:induction false} AcceptedCount(q: seq<Entry>, capacity: int)
    ensures CountAccepted(Relabel(q, capacity))
            == if capacity <= 0 then 0 else if capacity < |q| then capacity else |q|
    ensures forall i :: 0 <= i < |q| ==>
              (Relabel(q, capacity)[i].status == Accepted <==> i < capacity)
  {
    if q != [] {
      var n := |q| - 1;
      AcceptedCount(q[..n], capacity);
      assert Relabel(q, capacity)[..n] == Relabel(q[..n], capacity);
    }
  }

  /** On a sorted queue every accepted record was submitted no later than any rejected one. */
  lemma AcceptedAreEarliest(q: seq<Entry>, capacity: int)
    requires Sorted(q)
    ensures forall i, j ::
              (0 <= i < |q| && 0 <= j < |q|
               && Relabel(q, capacity)[i].status == Accepted
               && Relabel(q, capacity)[j].status == Rejected) ==> q[i].ts <= q[j].ts
  {
    AcceptedCount(q, capacity);
  }

  /** Idempotent re-ranking: once the computed statuses are stored, ranking the same
      queue again without a candidate yields no update. */
  lemma RerankingIsStable(q: seq<Entry>, capacity: int)
    ensures Diff(Relabel(q, capacity), capacity, None) == []
  {
    DiffEmptyIff(Relabel(q, capacity), capacity, None);
  }

  /** The queue that is ranked: the current one, or the current one with the candidate
      appended and the whole sorted again by timestamp. */
  function QueueWith(current: seq<Entry>, candidate: Option<Entry>): seq<Entry>
  {
    match candidate
    case None => current
    case Some(c) => SortByTs(current + [c])
  }

  function IdOf(candidate: Option<Entry>): Option<RecordId>
  {
    match candidate
    case None => None
    case Some(c) => Some(c.id)
  }

  /** On a sorted queue that does not already hold its id, the candidate lands just after
      every record submitted no later than it, and no other record carries its id;
      its position is then SplitPoint + 1. */
  lemma CandidatePlacement(current: seq<Entry>, c: Entry)
    requires Sorted(current)
    requires forall e :: e in current ==> e.id != c.id
    ensures QueueWith(current, Some(c))
            == current[..SplitPoint(current, c.ts)] + [c] + current[SplitPoint(current, c.ts)..]
    ensures forall j :: 0 <= j < |QueueWith(current, Some(c))| ==>
              (QueueWith(current, Some(c))[j].id == c.id <==> j == SplitPoint(current, c.ts))
    ensures forall j :: 0 <= j < SplitPoint(current, c.ts) ==> current[j].ts <= c.ts
  {
    QueueIsInsert(current, c);
    InsertedAt(current, c, SplitPoint(current, c.ts));
    BeforeSplitPoint(current, c.ts);
  }

  lemma QueueIsInsert(current: seq<Entry>, c: Entry)
    requires Sorted(current)
    ensures QueueWith(current, Some(c)) == Insert(current, c)
  {
    SortAfterAppend(current, c);
  }

  lemma BeforeSplitPoint(s: seq<Entry>, t: Timestamp)
    requires Sorted(s)
    ensures forall j :: 0 <= j < SplitPoint(s, t) ==> s[j].ts <= t
  {
    var k := SplitPoint(s, t);
    forall j | 0 <= j < k ensures s[j].ts <= t {
      assert s[j].ts <= s[k - 1].ts;
    }
  }

  lemma InsertedAt(s: seq<Entry>, c: Entry, k: nat)
    requires k <= |s|
    requires forall e :: e in s ==> e.id != c.id
    ensures forall j :: 0 <= j < |s| + 1 ==>
              ((s[..k] + [c] + s[k..])[j].id == c.id <==> j == k)
  {
    var q := s[..k] + [c] + s[k..];
    forall j | 0 <= j < |q| ensures q[j].id == c.id <==> j == k {
      if j < k {
        assert q[j] == s[j];
        assert s[j] in s;
      } else if j > k {
        assert q[j] == s[j - 1];
        assert s[j - 1] in s;
      }
    }
  }

  lemma DiffStep(q: seq<Entry>, i: nat, capacity: int, candidate: Option<RecordId>)
    requires i < |q|
    ensures Diff(q[..i + 1], capacity, candidate)
            == Diff(q[..i], capacity, candidate)
               + (if Changes(q, i, capacity, candidate) then [UpdateAt(q, i, capacity)] else [])
  {
    var p := q[..i + 1];
    assert p[..i] == q[..i];
    assert p[i] == q[i];
  }

  lemma CandidateIndex(current: seq<Entry>, c: Entry) returns (j: nat)
    ensures j < |QueueWith(current, Some(c))| && QueueWith(current, Some(c))[j] == c
  {
    assert c in multiset(current + [c]);
    assert c in QueueWith(current, Some(c));
    j :| 0 <= j < |QueueWith(current, Some(c))| && QueueWith(current, Some(c))[j] == c;
  }

  /** The loop of `reavaliar_posicao` over an already ordered queue: the status computed
      for the last record carrying the candidate id and its 1-based position, and the
      status changes of every other record. */
  method RankQueue(q: seq<Entry>, capacity: int, cand: Option<RecordId>)
    returns (status: Option<Status>, position: nat, updates: seq<Update>)
    ensures updates == Diff(q, capacity, cand)
    ensures position <= |q|
    ensures position == 0 ==> status == None
    ensures position > 0 ==> IsCandidate(q[position - 1], cand) && status == Some(Computed(position, capacity))
    ensures forall j :: position <= j < |q| ==> !IsCandidate(q[j], cand)
  {
    status, position, updates := None, 0, [];
    for i := 0 to |q|
      invariant updates == Diff(q[..i], capacity, cand)
      invariant position <= i
      invariant position == 0 ==> status == None
      invariant position > 0 ==> IsCandidate(q[position - 1], cand) && status == Some(Computed(position, capacity))
      invariant forall j :: position <= j < i ==> !IsCandidate(q[j], cand)
    {
      DiffStep(q, i, capacity, cand);
      var p := i + 1;
      var computed := Computed(p, capacity);
      if IsCandidate(q[i], cand) {
        status := Some(computed);
        position := p;
      } else if computed != q[i].status {
        updates := updates + [Update(q[i].id, q[i].name, computed, q[i].ts)];
      }
    }
    assert q[..|q|] == q;
  }

  /** `reavaliar_posicao`: ranks the queue (with the candidate inserted, if any) and
      returns the candidate's status and 1-based position and the status changes of the
      other records. When several records carry the candidate's id the last one wins,
      as in the source loop. */
  method Reevaluate(current: seq<Entry>, capacity: int, candidate: Option<Entry>)
    returns (status: Option<Status>, position: nat, updates: seq<Update>)
    ensures updates == Diff(QueueWith(current, candidate), capacity, IdOf(candidate))
    ensures candidate.None? ==> status == None && position == 0
    ensures candidate.Some? ==>
              var q := QueueWith(current, candidate);
              && 1 <= position <= |q|
              && q[position - 1].id == candidate.value.id
              && (forall j :: position <= j < |q| ==> q[j].id != candidate.value.id)
              && status == Some(Computed(position, capacity))
  {
    var q := QueueWith(current, candidate);
    status, position, updates := RankQueue(q, capacity, IdOf(candidate));
    if candidate.Some? {
      var j := CandidateIndex(current, candidate.value);
      assert IsCandidate(q[j], IdOf(candidate));
    }
  }
}
