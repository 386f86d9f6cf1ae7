// Filtering and choosing among candidate workers.
module Selection {
  import opened Types
  import opened WorkerStore

  const SPREAD_THRESHOLD: real := 1.0 / 20.0

  predicate IsFree(w: WorkerState) {
    w.status == Online && w.available > 0
  }

  // ------------------------------------------------ what may be selected

  function Eligible(s: Store, required: seq<Tag>): set<WorkerId> {
    set id | id in Candidates(s, required) && IsFree(s.workers[id])
  }

  // The eligible workers within the spread threshold of the least loaded one.
  function Choices(s: Store, required: seq<Tag>): set<WorkerId> {
    set id | id in Eligible(s, required) &&
             forall u | u in Eligible(s, required) ::
               s.workers[id].LoadRatio() - s.workers[u].LoadRatio() <= SPREAD_THRESHOLD
  }

  ghost predicate NearLeast(w: WorkerState, ws: seq<WorkerState>) {
    w in ws && forall u :: u in ws ==> w.LoadRatio() - u.LoadRatio() <= SPREAD_THRESHOLD
  }

  // ----------------------------------------------------------- filtering

  function Kept(ws: seq<WorkerState>): (r: seq<WorkerState>)
    ensures forall w :: w in r <==> w in ws && IsFree(w)
  {
    if ws == [] then []
    else
      var front, w := ws[..|ws| - 1], ws[|ws| - 1];
      assert ws == front + [w];
      Kept(front) + if IsFree(w) then [w] else []
  }

  // What the documentation says is excluded: offline or full workers only.
  predicate IsFreeAsDocumented(w: WorkerState) {
    w.status != Offline && w.available > 0
  }

  // The filter keeps all the documentation says it keeps if and only if no free
  // worker is Suspicious; the rest of the documented filter always holds.
  lemma DocumentedFilterIff(ws: seq<WorkerState>)
    ensures (forall w :: w in ws && IsFreeAsDocumented(w) ==> w in Kept(ws)) <==>
            !exists w :: w in ws && w.status == Suspicious && w.available > 0
    ensures forall w :: w in Kept(ws) ==> w in ws && IsFreeAsDocumented(w)
  {
    if w :| w in ws && w.status == Suspicious && w.available > 0 {
      assert IsFreeAsDocumented(w) && w !in Kept(ws);
    }
  }

  lemma SuspiciousIsDropped(w: WorkerState)
    requires w.status == Suspicious && w.available > 0
    ensures IsFreeAsDocumented(w) && Kept([w]) == []
  {
  }

  // Filtering judges every worker for itself and keeps the order.
  lemma {:induction false} KeptInOrder(a: seq<WorkerState>, b: seq<WorkerState>)
    ensures Kept(a + b) == Kept(a) + Kept(b)
    decreases |b|
  {
    if b == [] {
      assert a + b == a;
    } else {
      var front, w := b[..|b| - 1], b[|b| - 1];
      KeptInOrder(a, front);
      assert (a + b)[..|a + b| - 1] == a + front;
      assert (a + b)[|a + b| - 1] == w;
      assert Kept(a + b) == Kept(a + front) + if IsFree(w) then [w] else [];
      assert Kept(b) == Kept(front) + if IsFree(w) then [w] else [];
    }
  }

  lemma KeptAlone(w: WorkerState)
    ensures Kept([w]) == if w.status == Online && w.available > 0 then [w] else []
  {
  }

  method FilterAvailable(workers: seq<WorkerState>) returns (result: seq<WorkerState>)
    ensures result == Kept(workers)
    ensures forall w :: w in result <==> w in workers && IsFree(w)
  {
    result := [];
    for i := 0 to |workers|
      invariant result == Kept(workers[..i])
    {
      assert workers[..i + 1][..i] == workers[..i];
      if workers[i].status == Online && workers[i].available > 0 {
        result := result + [workers[i]];
      }
    }
    assert workers[..|workers|] == workers;
  }

  // ------------------------------------------------------------- sorting

  ghost predicate SortedByRatio(ws: seq<WorkerState>) {
    forall i, j :: 0 <= i < j < |ws| ==> ws[i].LoadRatio() <= ws[j].LoadRatio()
  }

  // A possible result of the unstable library sort.
  ghost predicate IsSortOf(sorted: seq<WorkerState>, ws: seq<WorkerState>) {
    SortedByRatio(sorted) && multiset(sorted) == multiset(ws)
  }

  function Insert(sorted: seq<WorkerState>, w: WorkerState): (r: seq<WorkerState>)
    ensures multiset(r) == multiset(sorted) + multiset{w}
  {
    if sorted == [] || w.LoadRatio() <= sorted[0].LoadRatio() then [w] + sorted
    else
      assert sorted == [sorted[0]] + sorted[1..];
      [sorted[0]] + Insert(sorted[1..], w)
  }

  lemma {:induction false} InsertKeepsSorted(sorted: seq<WorkerState>, w: WorkerState)
    requires SortedByRatio(sorted)
    ensures SortedByRatio(Insert(sorted, w))
  {
    if sorted != [] && w.LoadRatio() > sorted[0].LoadRatio() {
      var rest := Insert(sorted[1..], w);
      InsertKeepsSorted(sorted[1..], w);
      forall k | 0 <= k < |rest|
        ensures sorted[0].LoadRatio() <= rest[k].LoadRatio()
      {
        assert rest[k] in multiset(rest);
        assert rest[k] == w || rest[k] in sorted[1..];
      }
    }
  }

  function Sorted(ws: seq<WorkerState>): (r: seq<WorkerState>)
    ensures IsSortOf(r, ws)
  {
    if ws == [] then []
    else
      assert ws == [ws[0]] + ws[1..];
      InsertKeepsSorted(Sorted(ws[1..]), ws[0]);
      Insert(Sorted(ws[1..]), ws[0])
  }

  // Stands for sort.Slice: callers see only that the array is left sorted and
  // holds the same records, in an order of the library's choosing among ties.
  method SortSlice(a: array<WorkerState>)
    modifies a
    ensures IsSortOf(a[..], old(a[..]))
  {
    var s := Sorted(a[..]);
    assert |s| == |multiset(s)| == |multiset(a[..])| == a.Length;
    forall i | 0 <= i < a.Length {
      a[i] := s[i];
    }
    assert a[..] == s;
  }

  // What may stand in the pickIndex field.
  ghost predicate IsPicker(pickIndex: nat -> nat) {
    forall n: nat :: n > 0 ==> pickIndex(n) < n
  }

  // Stands for rand.Intn at one call.
  method RandIntn() returns (pickIndex: nat -> nat)
    ensures IsPicker(pickIndex)
  {
    var i: nat := *;
    pickIndex := (n: nat) => if n == 0 then 0 else i % n;
  }

  // The length of the tied prefix.
  ghost predicate IsTied(sorted: seq<WorkerState>, tied: nat) {
    && 1 <= tied <= |sorted|
    && (forall i :: 0 <= i < tied ==> sorted[i].LoadRatio() - sorted[0].LoadRatio() <= SPREAD_THRESHOLD)
    && (tied < |sorted| ==> sorted[tied].LoadRatio() - sorted[0].LoadRatio() > SPREAD_THRESHOLD)
  }

  // In a sorted order the tied prefix holds all the near-least workers and
  // nobody else.
  lemma TiedIsExact(ws: seq<WorkerState>, sorted: seq<WorkerState>, tied: nat)
    requires IsSortOf(sorted, ws) && IsTied(sorted, tied)
    ensures forall i :: 0 <= i < |sorted| ==> (i < tied <==> NearLeast(sorted[i], ws))
    ensures forall w :: NearLeast(w, ws) <==> w in sorted[..tied]
  {
    forall w
      ensures w in ws <==> w in sorted
    {
      assert w in ws <==> w in multiset(ws);
      assert w in sorted <==> w in multiset(sorted);
    }
    forall i | 0 <= i < |sorted|
      ensures i < tied <==> NearLeast(sorted[i], ws)
    {
      forall u | u in ws
        ensures sorted[0].LoadRatio() <= u.LoadRatio()
      {
        var k :| 0 <= k < |sorted| && sorted[k] == u;
      }
      if i >= tied {
        assert sorted[tied].LoadRatio() <= sorted[i].LoadRatio();
        assert sorted[0] in ws;
      }
    }
  }

  method SelectBestWorker(workers: array<WorkerState>, pickIndex: nat -> nat) returns (best: Option<WorkerState>)
    requires IsPicker(pickIndex)
    ensures best.None? <==> workers.Length == 0
    ensures best.Some? ==> NearLeast(best.value, workers[..])
    ensures best.Some? ==> forall u :: u in workers[..] ==> 20.0 * (best.value.LoadRatio() - u.LoadRatio()) <= 1.0
    ensures best.Some? ==> exists sorted, tied: nat :: Picked(workers[..], sorted, tied, pickIndex(tied), best.value)
  {
    if workers.Length == 0 {
      return None;
    }
    var workersCopy := new WorkerState[workers.Length](i requires 0 <= i < workers.Length reads workers => workers[i]);
    assert workersCopy[..] == workers[..];
    SortSlice(workersCopy);
    assert |workersCopy[..]| == |multiset(workersCopy[..])| == |multiset(workers[..])|;
    var bestRatio := workersCopy[0].LoadRatio();
    var tied := 1;
    while tied < workersCopy.Length && workersCopy[tied].LoadRatio() - bestRatio <= SPREAD_THRESHOLD
      invariant 1 <= tied <= workersCopy.Length
      invariant forall i :: 0 <= i < tied ==> workersCopy[i].LoadRatio() - bestRatio <= SPREAD_THRESHOLD
    {
      tied := tied + 1;
    }
    TiedIsExact(workers[..], workersCopy[..], tied);
    var index := pickIndex(tied);
    assert workersCopy[..][index] == workersCopy[index];
    assert Picked(workers[..], workersCopy[..], tied, index, workersCopy[index]);
    return Some(workersCopy[index]);
  }

  // ----------------------------------------------- every outcome, and no other

  // w can come out of sorting ws somehow and picking in the tied prefix.
  ghost predicate Selectable(ws: seq<WorkerState>, w: WorkerState) {
    exists sorted, tied, index :: Picked(ws, sorted, tied, index, w)
  }

  ghost predicate Picked(ws: seq<WorkerState>, sorted: seq<WorkerState>, tied: nat, index: nat, w: WorkerState) {
    IsSortOf(sorted, ws) && IsTied(sorted, tied) && index < tied && sorted[index] == w
  }

  function TiedCount(sorted: seq<WorkerState>, from: nat): (tied: nat)
    requires 1 <= from <= |sorted|
    requires forall i :: 0 <= i < from ==> sorted[i].LoadRatio() - sorted[0].LoadRatio() <= SPREAD_THRESHOLD
    ensures IsTied(sorted, tied)
    decreases |sorted| - from
  {
    if from < |sorted| && sorted[from].LoadRatio() - sorted[0].LoadRatio() <= SPREAD_THRESHOLD
    then TiedCount(sorted, from + 1) else from
  }

  lemma SelectableExactly(ws: seq<WorkerState>, w: WorkerState)
    ensures Selectable(ws, w) <==> NearLeast(w, ws)
    ensures Selectable(ws, w) <==> w in ws && forall u :: u in ws ==> 20.0 * (w.LoadRatio() - u.LoadRatio()) <= 1.0
  {
    if Selectable(ws, w) {
      var sorted, tied, index :| Picked(ws, sorted, tied, index, w);
      TiedIsExact(ws, sorted, tied);
    }
    if NearLeast(w, ws) {
      var sorted := Sorted(ws);
      assert w in multiset(ws) && w in multiset(sorted);
      var tied := TiedCount(sorted, 1);
      TiedIsExact(ws, sorted, tied);
      var index :| 0 <= index < |sorted[..tied]| && sorted[..tied][index] == w;
      assert Picked(ws, sorted, tied, index, w);
    }
  }

  // Filtering a listing of the candidates and taking a near-least worker yields
  // exactly the choices, whatever the order of the listing.
  lemma ChoicesFromListing(s: Store, required: seq<Tag>, ws: seq<WorkerState>)
    requires Lists(ws, Candidates(s, required), s.workers)
    ensures forall w :: NearLeast(w, Kept(ws)) ==> w.workerID in Choices(s, required) && s.workers[w.workerID] == w
    ensures forall id :: id in Choices(s, required) ==> NearLeast(s.workers[id], Kept(ws))
    ensures Kept(ws) == [] <==> Eligible(s, required) == {}
  {
    forall id | id in Candidates(s, required)
      ensures s.workers[id] in ws
    {
      assert id in IdsOf(ws);
    }
    assert forall w :: w in ws ==> w.workerID in IdsOf(ws);
    assert forall id :: id in Eligible(s, required) ==> s.workers[id] in Kept(ws);
    assert forall w :: w in Kept(ws) ==> w.workerID in Eligible(s, required);
    if Kept(ws) != [] {
      assert Kept(ws)[0] in Kept(ws);
    }
  }

  // Over all map iteration orders, all sorts and all picks, filter and select
  // reach exactly the choices; every order alone already reaches all of them.
  lemma SelectionIsOrderIndependent(s: Store, required: seq<Tag>, ws: seq<WorkerState>, id: WorkerId)
    requires Lists(ws, Candidates(s, required), s.workers)
    ensures (exists w: WorkerState :: w.workerID == id && Selectable(Kept(ws), w)) <==> id in Choices(s, required)
    ensures id in Choices(s, required) <==>
              && id in Eligible(s, required)
              && forall u :: u in Eligible(s, required) ==>
                   20.0 * (s.workers[id].LoadRatio() - s.workers[u].LoadRatio()) <= 1.0
  {
    ChoicesFromListing(s, required, ws);
    if id in Choices(s, required) {
      SelectableExactly(Kept(ws), s.workers[id]);
      assert s.workers[id] in Kept(ws);
      assert s.workers[id].workerID == id by {
        assert id in IdsOf(ws);
      }
    }
    if exists w: WorkerState :: w.workerID == id && Selectable(Kept(ws), w) {
      var w: WorkerState :| w.workerID == id && Selectable(Kept(ws), w);
      SelectableExactly(Kept(ws), w);
    }
  }

  lemma {:induction false} LeastLoaded(workers: Table, ids: set<WorkerId>) returns (least: WorkerId)
    requires ids != {} && ids <= workers.Keys
    ensures least in ids
    ensures forall u :: u in ids ==> workers[least].LoadRatio() <= workers[u].LoadRatio()
    decreases ids
  {
    var id :| id in ids;
    least := id;
    if ids != {id} {
      var other := LeastLoaded(workers, ids - {id});
      least := if workers[id].LoadRatio() <= workers[other].LoadRatio() then id else other;
      forall u | u in ids
        ensures workers[least].LoadRatio() <= workers[u].LoadRatio()
      {
        assert u == id || u in ids - {id};
      }
    }
  }

  // Selection cannot fail once a worker is eligible.
  lemma ChoicesExist(s: Store, required: seq<Tag>)
    ensures Choices(s, required) == {} <==> Eligible(s, required) == {}
  {
    if Eligible(s, required) != {} {
      var least := LeastLoaded(s.workers, Eligible(s, required));
      assert least in Choices(s, required);
    }
  }
}
