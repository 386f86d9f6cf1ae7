// The worker table and its inverted tag index as values, and what each
// operation of the state manager does to them. The classes are proved against
// these functions; the run-level theorems are stated over them.
module WorkerStore {
  import opened Types

  type Table = map<WorkerId, WorkerState>
  type Index = map<Tag, set<WorkerId>>

  datatype Store = Store(workers: Table, index: Index)

  const EMPTY := Store(map[], map[])

  // ---------------------------------------------------------------- index

  predicate Indexed(index: Index, tag: Tag, id: WorkerId) {
    tag in index && id in index[tag]
  }

  predicate Carries(workers: Table, id: WorkerId, tag: Tag) {
    id in workers && tag in workers[id].resourceTags
  }

  function IdsAt(index: Index, tag: Tag): set<WorkerId> {
    if tag in index then index[tag] else {}
  }

  function Added(index: Index, id: WorkerId, tags: seq<Tag>): Index {
    map t | t in index.Keys + (set x | x in tags) ::
      IdsAt(index, t) + (if t in tags then {id} else {})
  }

  function Removed(index: Index, id: WorkerId, tags: seq<Tag>): Index {
    map t | t in index && !(t in tags && index[t] - {id} == {}) ::
      if t in tags then index[t] - {id} else index[t]
  }

  function Updated(index: Index, id: WorkerId, oldTags: seq<Tag>, newTags: seq<Tag>): Index {
    if multiset(oldTags) == multiset(newTags) then index
    else Added(Removed(index, id, oldTags), id, newTags)
  }

  // ----------------------------------------------------------- operations

  function Reported(hb: Heartbeat, now: Time): WorkerState {
    WorkerState(hb.workerID, hb.address, hb.resourceTags, hb.maxTasks, hb.currentTasks,
                hb.maxTasks - hb.currentTasks, now, Online, hb.metrics)
  }

  function Beat(s: Store, hb: Heartbeat, now: Time): Store {
    var id := hb.workerID;
    Store(s.workers[id := Reported(hb, now)],
          if id in s.workers then Updated(s.index, id, s.workers[id].resourceTags, hb.resourceTags)
          else Added(s.index, id, hb.resourceTags))
  }

  // Whether AllocateTask(id) succeeds.
  predicate HasRoom(s: Store, id: WorkerId) {
    id in s.workers && s.workers[id].available > 0
  }

  function OneMore(w: WorkerState): WorkerState {
    w.(currentTasks := w.currentTasks + 1, available := w.available - 1)
  }

  function Allocate(s: Store, id: WorkerId): Store {
    if HasRoom(s, id) then s.(workers := s.workers[id := OneMore(s.workers[id])]) else s
  }

  function Aged(w: WorkerState, now: Time, cfg: Config): WorkerState {
    var elapsed := now - w.lastHeartbeat;
    if elapsed > cfg.offline then w.(status := Offline)
    else if elapsed > cfg.suspicious then w.(status := Suspicious)
    else w
  }

  function Timeouts(s: Store, now: Time, cfg: Config): Store {
    s.(workers := map id | id in s.workers :: Aged(s.workers[id], now, cfg))
  }

  function Load(snapshot: seq<WorkerState>): Store {
    if snapshot == [] then EMPTY
    else
      var s := Load(snapshot[..|snapshot| - 1]);
      var w := snapshot[|snapshot| - 1];
      Store(s.workers[w.workerID := w], Added(s.index, w.workerID, w.resourceTags))
  }

  // A snapshot as it arrives: the decoder turns a JSON null into a nil record.
  type Snapshot = seq<Option<WorkerState>>

  predicate IsWhole(snapshot: Snapshot) {
    forall i :: 0 <= i < |snapshot| ==> snapshot[i].Some?
  }

  // The records before the first nil one, at which LoadSnapshot panics.
  function Received(snapshot: Snapshot): (r: seq<WorkerState>)
    ensures |r| <= |snapshot| && forall i :: 0 <= i < |r| ==> snapshot[i] == Some(r[i])
    ensures |r| < |snapshot| ==> snapshot[|r|].None?
  {
    if snapshot == [] || snapshot[0].None? then [] else [snapshot[0].value] + Received(snapshot[1..])
  }

  function Sent(ws: seq<WorkerState>): Snapshot {
    seq(|ws|, i requires 0 <= i < |ws| => Some(ws[i]))
  }

  lemma SentIsReceived(ws: seq<WorkerState>)
    ensures IsWhole(Sent(ws)) && Received(Sent(ws)) == ws
  {
  }

  // -------------------------------------------------------------- queries

  // What the index answers to a tag query; no required tag means every worker.
  function Candidates(s: Store, required: seq<Tag>): set<WorkerId> {
    set id | id in s.workers && forall t | t in required :: Indexed(s.index, t, id)
  }

  // What a plain scan of the table answers.
  function ScanFor(s: Store, required: seq<Tag>): set<WorkerId> {
    set id | id in s.workers && forall t | t in required :: t in s.workers[id].resourceTags
  }

  function IdsOf(ws: seq<WorkerState>): set<WorkerId> {
    set w | w in ws :: w.workerID
  }

  ghost predicate DistinctIds(ws: seq<WorkerState>) {
    forall i, j :: 0 <= i < j < |ws| ==> ws[i].workerID != ws[j].workerID
  }

  // ws holds the table's record of every id in ids, once each, in some order.
  ghost predicate Lists(ws: seq<WorkerState>, ids: set<WorkerId>, workers: Table) {
    && ids <= workers.Keys
    && DistinctIds(ws)
    && IdsOf(ws) == ids
    && (forall w :: w in ws ==> w.workerID in workers && workers[w.workerID] == w)
  }

  // ----------------------------------------------------------- invariants

  // Holds in every state the code can reach, whatever snapshots it loads: the
  // index misses nobody, names only known workers and has no empty entry.
  ghost predicate Coherent(s: Store) {
    && (forall id :: id in s.workers ==> s.workers[id].workerID == id)
    && (forall t, id :: Carries(s.workers, id, t) ==> Indexed(s.index, t, id))
    && (forall t, id :: Indexed(s.index, t, id) ==> id in s.workers)
    && (forall t :: t in s.index ==> s.index[t] != {})
  }

  // The index is exactly the inverse of the table.
  ghost predicate Exact(s: Store) {
    Coherent(s) && forall t, id :: Indexed(s.index, t, id) ==> Carries(s.workers, id, t)
  }

  lemma SameMembers(a: seq<Tag>, b: seq<Tag>)
    requires multiset(a) == multiset(b)
    ensures forall t :: t in a <==> t in b
  {
    forall t
      ensures t in a <==> t in b
    {
      assert t in a <==> t in multiset(a);
      assert t in b <==> t in multiset(b);
    }
  }

  // Skipping the index work when the tags are a permutation loses nothing.
  lemma SkipIsSound(index: Index, id: WorkerId, oldTags: seq<Tag>, newTags: seq<Tag>)
    requires multiset(oldTags) == multiset(newTags)
    requires forall t :: t in oldTags ==> Indexed(index, t, id)
    requires forall t :: t in index ==> index[t] != {}
    ensures Added(Removed(index, id, oldTags), id, newTags) == index
  {
    SameMembers(oldTags, newTags);
    var result := Added(Removed(index, id, oldTags), id, newTags);
    assert result.Keys == index.Keys;
    forall t | t in index
      ensures result[t] == index[t]
    {
      if t in oldTags {
        assert index[t] - {id} + {id} == index[t];
      }
    }
  }

  // Retagging swaps the old tags of one worker for the new ones and touches no
  // other worker's entries, whether or not the work is skipped.
  lemma UpdatedContents(index: Index, id: WorkerId, oldTags: seq<Tag>, newTags: seq<Tag>)
    requires forall t :: t in oldTags ==> Indexed(index, t, id)
    requires forall t :: t in index ==> index[t] != {}
    ensures var updated := Updated(index, id, oldTags, newTags);
            && (forall t, u :: Indexed(updated, t, u) <==>
                               if u == id && t in oldTags then t in newTags
                               else Indexed(index, t, u) || (u == id && t in newTags))
            && (forall t :: t in updated ==> updated[t] != {})
  {
    if multiset(oldTags) == multiset(newTags) {
      SameMembers(oldTags, newTags);
    }
  }

  // After a heartbeat its worker is under the reported tags, and under others
  // only where the index was already wrong about it.
  lemma BeatContents(s: Store, hb: Heartbeat, now: Time)
    requires Coherent(s)
    ensures var s' := Beat(s, hb, now);
            && (forall t, u :: Indexed(s'.index, t, u) <==>
                               if u == hb.workerID then t in hb.resourceTags || (Indexed(s.index, t, u) && !Carries(s.workers, u, t))
                               else Indexed(s.index, t, u))
            && (forall t :: t in s'.index ==> s'.index[t] != {})
  {
    var id := hb.workerID;
    if id in s.workers {
      var oldTags := s.workers[id].resourceTags;
      assert forall t :: t in oldTags <==> Carries(s.workers, id, t);
      UpdatedContents(s.index, id, oldTags, hb.resourceTags);
    }
  }

  lemma BeatCoherent(s: Store, hb: Heartbeat, now: Time)
    requires Coherent(s)
    ensures Coherent(Beat(s, hb, now))
    ensures Exact(s) ==> Exact(Beat(s, hb, now))
  {
    var s' := Beat(s, hb, now);
    BeatContents(s, hb, now);
    assert forall t, u :: Carries(s'.workers, u, t) <==> if u == hb.workerID then t in hb.resourceTags else Carries(s.workers, u, t);
  }

  lemma AllocateCoherent(s: Store, id: WorkerId)
    requires Coherent(s)
    ensures Coherent(Allocate(s, id))
    ensures Exact(s) ==> Exact(Allocate(s, id))
    ensures forall required :: Candidates(Allocate(s, id), required) == Candidates(s, required)
  {
    var s' := Allocate(s, id);
    assert forall u, t :: Carries(s'.workers, u, t) <==> Carries(s.workers, u, t);
  }

  lemma TimeoutsCoherent(s: Store, now: Time, cfg: Config)
    requires Coherent(s)
    ensures Coherent(Timeouts(s, now, cfg))
    ensures Exact(s) ==> Exact(Timeouts(s, now, cfg))
  {
    var s' := Timeouts(s, now, cfg);
    assert forall u, t :: Carries(s'.workers, u, t) <==> Carries(s.workers, u, t);
  }

  // --------------------------------------------------------------- ratios

  // The load ratio is the share of the limit in use; no limit counts as full.
  lemma RatioIsShare(w: WorkerState)
    ensures w.maxTasks != 0 ==> w.LoadRatio() * w.maxTasks as real == w.currentTasks as real
    ensures w.maxTasks == 0 ==> w.LoadRatio() == 1.0
  {
  }

  // When a load ratio lies in the documented range from 0 to 1.
  lemma RatioInRangeIff(w: WorkerState)
    ensures 0.0 <= w.LoadRatio() <= 1.0 <==>
              w.maxTasks == 0 || 0 <= w.currentTasks <= w.maxTasks || w.maxTasks <= w.currentTasks <= 0
    ensures w.maxTasks > 0 ==> (w.LoadRatio() < 1.0 <==> w.currentTasks < w.maxTasks)
    ensures w.maxTasks > 0 && w.currentTasks == w.maxTasks ==> w.LoadRatio() == 1.0
  {
  }

  // A heartbeat passes validation exactly if its record names a worker, has a
  // positive limit and shows no more free slots than that.
  lemma ValidatedIff(hb: Heartbeat, now: Time)
    ensures hb.Validate() <==>
              var w := Reported(hb, now); w.workerID != "" && w.maxTasks > 0 && w.available <= w.maxTasks
  {
  }

  // A heartbeat that passes validation is in range unless it reports more tasks
  // than its limit, and one task over a limit of one already is not.
  lemma ValidReportsCanBeOutOfRange(hb: Heartbeat, now: Time)
    requires hb.Validate()
    ensures 0.0 <= Reported(hb, now).LoadRatio() <= 1.0 <==> hb.currentTasks <= hb.maxTasks
    ensures var over := hb.(maxTasks := 1, currentTasks := 2);
            over.Validate() && Reported(over, now).LoadRatio() > 1.0
  {
    RatioInRangeIff(Reported(hb, now));
    RatioInRangeIff(Reported(hb.(maxTasks := 1, currentTasks := 2), now));
  }

  // ------------------------------------------------------------ snapshots

  // The record LoadSnapshot keeps for an id: the last one.
  function Last(ws: seq<WorkerState>, id: WorkerId): (w: WorkerState)
    requires id in IdsOf(ws)
    ensures w in ws && w.workerID == id
  {
    var w := ws[|ws| - 1];
    if w.workerID == id then w
    else
      assert ws == ws[..|ws| - 1] + [w];
      Last(ws[..|ws| - 1], id)
  }

  // No record carries a tag that the record kept for its worker lacks.
  ghost predicate NoStaleTags(ws: seq<WorkerState>) {
    forall w, t :: w in ws && t in w.resourceTags ==> t in Last(ws, w.workerID).resourceTags
  }

  // The table keeps the last record of each worker, the index the tags of all.
  lemma {:induction false} LoadContents(ws: seq<WorkerState>)
    ensures Load(ws).workers.Keys == IdsOf(ws)
    ensures forall id :: id in IdsOf(ws) ==> Load(ws).workers[id] == Last(ws, id)
    ensures forall t, id :: Indexed(Load(ws).index, t, id) <==> exists w :: w in ws && w.workerID == id && t in w.resourceTags
    ensures forall t :: t in Load(ws).index ==> Load(ws).index[t] != {}
  {
    if ws != [] {
      var front, w := ws[..|ws| - 1], ws[|ws| - 1];
      assert ws == front + [w];
      LoadContents(front);
      forall t, id
        ensures Indexed(Load(ws).index, t, id) <==> exists x :: x in ws && x.workerID == id && t in x.resourceTags
      {
        assert Indexed(Load(ws).index, t, id) <==> Indexed(Load(front).index, t, id) || (id == w.workerID && t in w.resourceTags);
        if exists x :: x in ws && x.workerID == id && t in x.resourceTags {
          var x :| x in ws && x.workerID == id && t in x.resourceTags;
          assert x in front || x == w;
        }
      }
    }
  }

  // LoadSnapshot builds an exact index if and only if no duplicate record
  // leaves a stale tag behind; it is coherent in any case.
  lemma LoadExactIff(ws: seq<WorkerState>)
    ensures Coherent(Load(ws))
    ensures Exact(Load(ws)) <==> NoStaleTags(ws)
  {
    LoadContents(ws);
    var s := Load(ws);
    if Exact(s) {
      forall w, t | w in ws && t in w.resourceTags
        ensures t in Last(ws, w.workerID).resourceTags
      {
        assert Indexed(s.index, t, w.workerID);
        assert Carries(s.workers, w.workerID, t);
      }
    }
  }

  lemma LoadCoherent(ws: seq<WorkerState>)
    ensures Coherent(Load(ws))
  {
    LoadExactIff(ws);
  }

  // With distinct ids there is only one record to keep, so nothing is stale.
  lemma DistinctIdsAreNotStale(ws: seq<WorkerState>)
    requires DistinctIds(ws)
    ensures NoStaleTags(ws)
  {
  }

  // Two records of one worker with different tags: the worker is then found
  // under a tag it no longer carries.
  lemma DuplicateIdsCanBeStale(w: WorkerState)
    requires w.resourceTags == []
    ensures var ws := [w.(resourceTags := ["gpu"]), w];
            && !Exact(Load(ws))
            && w.workerID in Candidates(Load(ws), ["gpu"])
            && w.workerID !in ScanFor(Load(ws), ["gpu"])
  {
    var stale := w.(resourceTags := ["gpu"]);
    var ws := [stale, w];
    LoadContents(ws);
    assert stale in ws && w in ws && "gpu" in stale.resourceTags;
    assert Last(ws, w.workerID) == w;
    assert Indexed(Load(ws).index, "gpu", w.workerID);
    assert !Carries(Load(ws).workers, w.workerID, "gpu");
    assert "gpu" in ["gpu"];
  }

  // ------------------------------------------------------------- queries

  // The index never misses a match, and it is exact precisely when every
  // query agrees with the plain scan.
  lemma QueriesAgreeIffExact(s: Store)
    requires Coherent(s)
    ensures forall required :: ScanFor(s, required) <= Candidates(s, required)
    ensures Exact(s) <==> forall required :: Candidates(s, required) == ScanFor(s, required)
  {
    forall required
      ensures ScanFor(s, required) <= Candidates(s, required)
    {
      forall id | id in ScanFor(s, required)
        ensures id in Candidates(s, required)
      {
        assert forall t :: t in required ==> Carries(s.workers, id, t);
      }
    }
    if Exact(s) {
      forall required
        ensures Candidates(s, required) == ScanFor(s, required)
      {
        forall id | id in Candidates(s, required)
          ensures id in ScanFor(s, required)
        {
          assert forall t :: t in required ==> Carries(s.workers, id, t);
        }
      }
    }
    if forall required :: Candidates(s, required) == ScanFor(s, required) {
      forall t, id | Indexed(s.index, t, id)
        ensures Carries(s.workers, id, t)
      {
        assert id in Candidates(s, [t]);
        assert t in [t];
      }
    }
  }

  // ----------------------------------------------------------------- runs

  datatype Op = Heard(hb: Heartbeat, at: Time) | Granted(id: WorkerId) | Scanned(now: Time) | Loaded(snapshot: seq<WorkerState>)

  function Apply(s: Store, op: Op, cfg: Config): Store {
    match op
    case Heard(hb, at) => Beat(s, hb, at)
    case Granted(id) => Allocate(s, id)
    case Scanned(now) => Timeouts(s, now, cfg)
    case Loaded(snapshot) => Load(snapshot)
  }

  function Run(s: Store, ops: seq<Op>, cfg: Config): Store
    decreases |ops|
  {
    if ops == [] then s else Run(Apply(s, ops[0], cfg), ops[1..], cfg)
  }

  lemma ApplyCoherent(s: Store, op: Op, cfg: Config)
    requires Coherent(s)
    ensures Coherent(Apply(s, op, cfg))
    ensures Exact(s) && (op.Loaded? ==> NoStaleTags(op.snapshot)) ==> Exact(Apply(s, op, cfg))
  {
    match op
    case Heard(hb, at) => BeatCoherent(s, hb, at);
    case Granted(id) => AllocateCoherent(s, id);
    case Scanned(now) => TimeoutsCoherent(s, now, cfg);
    case Loaded(snapshot) => LoadExactIff(snapshot);
  }

  // Over every run the index misses nobody; it is the exact inverse of the
  // table as long as no loaded snapshot has stale duplicates.
  lemma {:induction false} IndexOverRuns(s: Store, ops: seq<Op>, cfg: Config)
    requires Coherent(s)
    ensures Coherent(Run(s, ops, cfg))
    ensures Exact(s) && (forall op :: op in ops && op.Loaded? ==> NoStaleTags(op.snapshot)) ==> Exact(Run(s, ops, cfg))
    decreases |ops|
  {
    if ops != [] {
      ApplyCoherent(s, ops[0], cfg);
      IndexOverRuns(Apply(s, ops[0], cfg), ops[1..], cfg);
    }
  }

  // Index refinement, in the form a client sees it.
  lemma QueriesOverRuns(ops: seq<Op>, cfg: Config, required: seq<Tag>)
    ensures ScanFor(Run(EMPTY, ops, cfg), required) <= Candidates(Run(EMPTY, ops, cfg), required)
    ensures (forall op :: op in ops && op.Loaded? ==> NoStaleTags(op.snapshot)) ==>
              Candidates(Run(EMPTY, ops, cfg), required) == ScanFor(Run(EMPTY, ops, cfg), required)
  {
    IndexOverRuns(EMPTY, ops, cfg);
    QueriesAgreeIffExact(Run(EMPTY, ops, cfg));
  }

  // ------------------------------------------- what a record goes back to

  // w shows what hb reported at that time, its load and label aside.
  predicate Reports(w: WorkerState, hb: Heartbeat, at: Time) {
    (w.workerID, w.address, w.resourceTags, w.maxTasks, w.metrics, w.lastHeartbeat) ==
    (hb.workerID, hb.address, hb.resourceTags, hb.maxTasks, hb.metrics, at)
  }

  // Two records that differ in load and label at most.
  predicate SameReport(a: WorkerState, b: WorkerState) {
    (a.workerID, a.address, a.resourceTags, a.maxTasks, a.metrics, a.lastHeartbeat) ==
    (b.workerID, b.address, b.resourceTags, b.maxTasks, b.metrics, b.lastHeartbeat)
  }

  predicate IsNews(op: Op, id: WorkerId) {
    op.Loaded? || (op.Heard? && op.hb.workerID == id)
  }

  // The last heartbeat of id or snapshot in ops.
  function LastNews(ops: seq<Op>, id: WorkerId): (last: Option<nat>)
    ensures last.Some? ==> last.value < |ops| && IsNews(ops[last.value], id)
    ensures forall j :: 0 <= j < |ops| && (last.Some? ==> j > last.value) ==> !IsNews(ops[j], id)
  {
    if ops == [] then None
    else
      var later := LastNews(ops[1..], id);
      if later.Some? then Some(later.value + 1)
      else if IsNews(ops[0], id) then Some(0)
      else None
  }

  // The table shows id as the heartbeat or snapshot op had it.
  predicate Shows(s: Store, op: Op, id: WorkerId) {
    match op
    case Heard(hb, at) => id in s.workers && Reports(s.workers[id], hb, at)
    case Loaded(ws) =>
      && (id in s.workers <==> id in IdsOf(ws))
      && (id in s.workers ==> SameReport(s.workers[id], Last(ws, id)))
    case _ => false
  }

  // From an empty table, a worker is known exactly if there was news of it, and
  // its record shows the address, tags, limit, metrics and time of the last
  // news; allocations and scans never touch them.
  lemma TableShowsLastNews(ops: seq<Op>, cfg: Config, id: WorkerId)
    ensures var last := LastNews(ops, id);
            if last.Some? then Shows(Run(EMPTY, ops, cfg), ops[last.value], id) else id !in Run(EMPTY, ops, cfg).workers
  {
    RunShowsLastNews(EMPTY, ops, cfg, id);
  }

  lemma {:induction false} RunShowsLastNews(s: Store, ops: seq<Op>, cfg: Config, id: WorkerId)
    ensures var last, end := LastNews(ops, id), Run(s, ops, cfg);
            if last.Some? then Shows(end, ops[last.value], id)
            else (id in end.workers <==> id in s.workers) && (id in s.workers ==> SameReport(end.workers[id], s.workers[id]))
    decreases |ops|
  {
    if ops != [] {
      var next := Apply(s, ops[0], cfg);
      RunShowsLastNews(next, ops[1..], cfg, id);
      if ops[0].Loaded? {
        LoadContents(ops[0].snapshot);
      }
    }
  }

  // ------------------------------------------------------------ round trip

  lemma ExactIndexIsUnique(a: Store, b: Store)
    requires Exact(a) && Exact(b) && a.workers == b.workers
    ensures a == b
  {
    forall t
      ensures t in a.index <==> t in b.index
      ensures t in a.index && t in b.index ==> a.index[t] == b.index[t]
    {
      assert forall id :: Indexed(a.index, t, id) <==> Carries(a.workers, id, t);
      assert forall id :: Indexed(b.index, t, id) <==> Carries(b.workers, id, t);
      if t in a.index {
        var id :| id in a.index[t];
        assert Indexed(a.index, t, id);
      }
      if t in b.index {
        var id :| id in b.index[t];
        assert Indexed(b.index, t, id);
      }
      if t in a.index && t in b.index {
        assert forall id :: id in a.index[t] <==> Indexed(a.index, t, id);
        assert forall id :: id in b.index[t] <==> Indexed(b.index, t, id);
      }
    }
  }

  // Loading a listing of a table, in any order, rebuilds that table, and the
  // index too exactly when the listed node's own index was exact.
  lemma RoundTrip(master: Store, ws: seq<WorkerState>)
    requires Coherent(master)
    requires Lists(ws, master.workers.Keys, master.workers)
    ensures Load(ws).workers == master.workers
    ensures Exact(Load(ws))
    ensures Load(ws) == master <==> Exact(master)
  {
    LoadContents(ws);
    DistinctIdsAreNotStale(ws);
    LoadExactIff(ws);
    if Exact(master) {
      ExactIndexIsUnique(Load(ws), master);
    }
  }

  ghost predicate AnswersAlike(a: Store, b: Store, after: seq<Op>, cfg: Config, required: seq<Tag>) {
    Candidates(Run(a, after, cfg), required) == Candidates(Run(b, after, cfg), required)
  }

  // A replica answers every query like the node it was copied from, now and
  // after every common continuation, if and only if that node's index was exact
  // when it was copied.
  lemma ReplicaAgreesIff(master: Store, ws: seq<WorkerState>, cfg: Config)
    requires Coherent(master) && Lists(ws, master.workers.Keys, master.workers)
    ensures Exact(master) <==> forall after, required :: AnswersAlike(Load(ws), master, after, cfg, required)
  {
    RoundTrip(master, ws);
    LoadCoherent(ws);
    var replica := Load(ws);
    if forall after, required :: AnswersAlike(replica, master, after, cfg, required) {
      QueriesAgreeIffExact(replica);
      forall required
        ensures Candidates(master, required) == ScanFor(master, required)
      {
        assert AnswersAlike(replica, master, [], cfg, required);
        assert ScanFor(replica, required) == ScanFor(master, required);
      }
      QueriesAgreeIffExact(master);
    }
  }

  // So does a replica of any master that has loaded no stale snapshot; it stays
  // the very same store.
  lemma ReplicaBisimilar(before: seq<Op>, ws: seq<WorkerState>, after: seq<Op>, cfg: Config, required: seq<Tag>)
    requires forall op :: op in before && op.Loaded? ==> NoStaleTags(op.snapshot)
    requires var master := Run(EMPTY, before, cfg); Lists(ws, master.workers.Keys, master.workers)
    ensures Run(Load(ws), after, cfg) == Run(Run(EMPTY, before, cfg), after, cfg)
    ensures AnswersAlike(Load(ws), Run(EMPTY, before, cfg), after, cfg, required)
  {
    IndexOverRuns(EMPTY, before, cfg);
    RoundTrip(Run(EMPTY, before, cfg), ws);
  }
}
