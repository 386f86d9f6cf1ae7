// The master copying its table to the standby, and what the copies keep.
module Replication {
  import opened Types
  import opened WorkerStore
  import opened State

  // One replication push that arrives, the encoding being lossless.
  method ReplicateOnce(master: StateManager, standby: StateManager)
    requires master.Valid() && standby.Valid() && master.Repr() !! standby.Repr()
    modifies standby.Repr()
    ensures standby.Valid() && master.Valid()
    ensures master.Contents() == old(master.Contents())
    ensures standby.workers == master.workers
    ensures Exact(standby.Contents())
    ensures Exact(master.Contents()) ==> standby.Contents() == master.Contents()
    ensures standby.capacity.Generation() == old(standby.capacity.Generation()) + 1
  {
    var list := master.ListWorkers();
    PushRebuilds(master.Contents(), list);
    var panicked := standby.LoadSnapshot(Sent(list));
  }

  lemma PushRebuilds(master: Store, list: seq<WorkerState>)
    requires Coherent(master) && Lists(list, master.workers.Keys, master.workers)
    ensures IsWhole(Sent(list))
    ensures var copy := Load(Received(Sent(list)));
            copy.workers == master.workers && Exact(copy) && (Exact(master) ==> copy == master)
  {
    SentIsReceived(list);
    RoundTrip(master, list);
  }

  // ------------------------------------------------------------------- lag

  // A master and its standby, each scanning on its own clock. Only the master
  // schedules. A worker's heartbeat reaches both nodes or only the master; a
  // snapshot taken from the master is delivered at once, late, out of order,
  // repeatedly or never.
  datatype PairOp =
    | DualHeartbeat(hb: Heartbeat, atMaster: Time, atStandby: Time)
    | MasterHeartbeat(hb: Heartbeat, at: Time)
    | Push(records: seq<WorkerState>)
    | Arrive(message: nat)
    | MasterGrant(id: WorkerId)
    | MasterScan(now: Time)
    | StandbyScan(now: Time)

  // A snapshot under way, and how many operations there were before it.
  datatype Message = Message(records: seq<WorkerState>, takenAt: nat)

  datatype Pair = Pair(master: Store, standby: Store, sent: seq<Message>)

  function PairStep(p: Pair, at: nat, op: PairOp, cfg: Config): Pair
    requires op.Arrive? ==> op.message < |p.sent|
  {
    match op
    case DualHeartbeat(hb, m, s) => p.(master := Beat(p.master, hb, m), standby := Beat(p.standby, hb, s))
    case MasterHeartbeat(hb, m) => p.(master := Beat(p.master, hb, m))
    case Push(records) => p.(sent := p.sent + [Message(records, at)])
    case Arrive(k) => p.(standby := Load(p.sent[k].records))
    case MasterGrant(id) => p.(master := Allocate(p.master, id))
    case MasterScan(now) => p.(master := Timeouts(p.master, now, cfg))
    case StandbyScan(now) => p.(standby := Timeouts(p.standby, now, cfg))
  }

  ghost predicate IsPairRun(ops: seq<PairOp>, cfg: Config)
    decreases |ops|, 0
  {
    ops == [] ||
    (var front, op := ops[..|ops| - 1], ops[|ops| - 1];
     && IsPairRun(front, cfg)
     && (op.Push? ==> var w := PairEnd(front, cfg).master.workers; Lists(op.records, w.Keys, w))
     && (op.Arrive? ==> op.message < |PairEnd(front, cfg).sent|))
  }

  ghost function PairEnd(ops: seq<PairOp>, cfg: Config): Pair
    requires IsPairRun(ops, cfg)
    decreases |ops|, 1
  {
    if ops == [] then Pair(EMPTY, EMPTY, [])
    else PairStep(PairEnd(ops[..|ops| - 1], cfg), |ops| - 1, ops[|ops| - 1], cfg)
  }

  lemma {:induction false} PairPrefix(ops: seq<PairOp>, cfg: Config, n: nat)
    requires IsPairRun(ops, cfg) && n <= |ops|
    ensures IsPairRun(ops[..n], cfg)
    decreases |ops|
  {
    if n < |ops| {
      var front := ops[..|ops| - 1];
      assert front[..n] == ops[..n];
      PairPrefix(front, cfg, n);
    } else {
      assert ops[..n] == ops;
    }
  }

  // The master's store after the first n operations.
  ghost function MasterAt(ops: seq<PairOp>, cfg: Config, n: nat): Store
    requires IsPairRun(ops, cfg) && n <= |ops|
  {
    PairPrefix(ops, cfg, n);
    PairEnd(ops[..n], cfg).master
  }

  lemma MasterThen(ops: seq<PairOp>, cfg: Config, n: nat)
    requires ops != [] && IsPairRun(ops, cfg) && n < |ops|
    ensures IsPairRun(ops[..|ops| - 1], cfg)
    ensures MasterAt(ops, cfg, n) == MasterAt(ops[..|ops| - 1], cfg, n)
  {
    assert ops[..|ops| - 1][..n] == ops[..n];
  }

  lemma MasterNow(ops: seq<PairOp>, cfg: Config)
    requires IsPairRun(ops, cfg)
    ensures MasterAt(ops, cfg, |ops|) == PairEnd(ops, cfg).master
  {
    assert ops[..|ops|] == ops;
  }

  predicate Beats(op: PairOp, id: WorkerId) {
    (op.DualHeartbeat? || op.MasterHeartbeat?) && op.hb.workerID == id
  }

  // No heartbeat of id after the first n operations.
  ghost predicate NoBeatSince(ops: seq<PairOp>, n: nat, id: WorkerId) {
    forall i :: n <= i < |ops| ==> !Beats(ops[i], id)
  }

  // The point of the master's past the standby's record of id dates from: the
  // snapshot delivered last, or id's last heartbeat at both nodes if later.
  ghost function Basis(ops: seq<PairOp>, cfg: Config, id: WorkerId): nat
    requires IsPairRun(ops, cfg)
    decreases |ops|
  {
    if ops == [] then 0
    else
      var front, op := ops[..|ops| - 1], ops[|ops| - 1];
      if op.DualHeartbeat? && op.hb.workerID == id then |ops|
      else if op.Arrive? then PairEnd(front, cfg).sent[op.message].takenAt
      else Basis(front, cfg, id)
  }

  // The slots of id the master has given out after the first n operations.
  ghost function GrantsSince(ops: seq<PairOp>, cfg: Config, n: nat, id: WorkerId): nat
    requires IsPairRun(ops, cfg)
    decreases |ops|
  {
    if |ops| <= n then 0
    else
      var front := ops[..|ops| - 1];
      GrantsSince(front, cfg, n, id) +
      if ops[|ops| - 1] == MasterGrant(id) && HasRoom(PairEnd(front, cfg).master, id) then 1 else 0
  }

  // m and s are two records of one worker, lag slots apart.
  predicate LagsBy(m: WorkerState, s: WorkerState, lag: int) {
    && (m.workerID, m.address, m.resourceTags, m.maxTasks, m.metrics) == (s.workerID, s.address, s.resourceTags, s.maxTasks, s.metrics)
    && m.currentTasks == s.currentTasks + lag
    && m.available == s.available - lag
  }

  predicate Tracks(m: Store, s: Store, id: WorkerId, lag: int) {
    && (id in m.workers <==> id in s.workers)
    && (id in m.workers ==> LagsBy(m.workers[id], s.workers[id], lag))
  }

  lemma {:induction false} MasterIsCoherent(ops: seq<PairOp>, cfg: Config)
    requires IsPairRun(ops, cfg)
    ensures Coherent(PairEnd(ops, cfg).master)
    decreases |ops|
  {
    if ops != [] {
      var front := ops[..|ops| - 1];
      MasterIsCoherent(front, cfg);
      var m := PairEnd(front, cfg).master;
      match ops[|ops| - 1] {
        case DualHeartbeat(hb, at, _) => BeatCoherent(m, hb, at);
        case MasterHeartbeat(hb, at) => BeatCoherent(m, hb, at);
        case MasterGrant(id) => AllocateCoherent(m, id);
        case MasterScan(now) => TimeoutsCoherent(m, now, cfg);
        case _ =>
      }
    }
  }

  // Every snapshot under way lists the master's table as it once was.
  lemma {:induction false} MessagesArePast(ops: seq<PairOp>, cfg: Config, k: nat)
    requires IsPairRun(ops, cfg) && k < |PairEnd(ops, cfg).sent|
    ensures var m := PairEnd(ops, cfg).sent[k];
            && m.takenAt <= |ops|
            && Lists(m.records, MasterAt(ops, cfg, m.takenAt).workers.Keys, MasterAt(ops, cfg, m.takenAt).workers)
    decreases |ops|
  {
    if ops != [] {
      var front := ops[..|ops| - 1];
      var m := PairEnd(ops, cfg).sent[k];
      if k < |PairEnd(front, cfg).sent| {
        MessagesArePast(front, cfg, k);
        if m.takenAt < |ops| {
          MasterThen(ops, cfg, m.takenAt);
        }
      } else {
        MasterThen(ops, cfg, |front|);
        MasterNow(front, cfg);
      }
    }
  }

  lemma ArrivalShowsPast(ops: seq<PairOp>, cfg: Config, id: WorkerId)
    requires ops != [] && IsPairRun(ops, cfg) && ops[|ops| - 1].Arrive?
    ensures Basis(ops, cfg, id) <= |ops|
    ensures PairEnd(ops, cfg).standby.workers == MasterAt(ops, cfg, Basis(ops, cfg, id)).workers
  {
    var front, k := ops[..|ops| - 1], ops[|ops| - 1].message;
    MessagesArePast(front, cfg, k);
    var m := PairEnd(front, cfg).sent[k];
    MasterThen(ops, cfg, m.takenAt);
    PairPrefix(ops, cfg, m.takenAt);
    MasterIsCoherent(ops[..m.takenAt], cfg);
    RoundTrip(MasterAt(ops, cfg, m.takenAt), m.records);
  }

  // Whatever is delivered when, the standby's record of a worker is always the
  // one the master had at some point, labels and heartbeat times aside.
  lemma {:induction false} StandbyIsPastMaster(ops: seq<PairOp>, cfg: Config, id: WorkerId)
    requires IsPairRun(ops, cfg)
    ensures Basis(ops, cfg, id) <= |ops|
    ensures Tracks(MasterAt(ops, cfg, Basis(ops, cfg, id)), PairEnd(ops, cfg).standby, id, 0)
    decreases |ops|
  {
    if ops == [] {
      MasterNow(ops, cfg);
    } else {
      var front, op := ops[..|ops| - 1], ops[|ops| - 1];
      if op.Arrive? {
        ArrivalShowsPast(ops, cfg, id);
      } else {
        StandbyIsPastMaster(front, cfg, id);
        if op.DualHeartbeat? && op.hb.workerID == id {
          MasterNow(ops, cfg);
        } else {
          MasterThen(ops, cfg, Basis(front, cfg, id));
        }
      }
    }
  }

  lemma StepMovesByGrant(m: Store, p: Pair, at: nat, op: PairOp, cfg: Config, id: WorkerId, lag: nat)
    requires Tracks(p.master, m, id, lag) && !Beats(op, id) && (op.Arrive? ==> op.message < |p.sent|)
    ensures Tracks(PairStep(p, at, op, cfg).master, m, id, lag + if op == MasterGrant(id) && HasRoom(p.master, id) then 1 else 0)
  {
  }

  // Without a heartbeat the master's record moves by its grants alone.
  lemma {:induction false} MasterMovesByGrants(ops: seq<PairOp>, cfg: Config, n: nat, id: WorkerId)
    requires IsPairRun(ops, cfg) && n <= |ops| && NoBeatSince(ops, n, id)
    ensures Tracks(PairEnd(ops, cfg).master, MasterAt(ops, cfg, n), id, GrantsSince(ops, cfg, n, id))
    ensures GrantsSince(ops, cfg, n, id) <= FreeSlotsOf(MasterAt(ops, cfg, n), id)
    decreases |ops|
  {
    if n == |ops| {
      MasterNow(ops, cfg);
    } else {
      var front := ops[..|ops| - 1];
      assert NoBeatSince(front, n, id);
      MasterMovesByGrants(front, cfg, n, id);
      MasterThen(ops, cfg, n);
      StepMovesByGrant(MasterAt(ops, cfg, n), PairEnd(front, cfg), |front|, ops[|ops| - 1], cfg, id, GrantsSince(front, cfg, n, id));
    }
  }

  // The free slots of id, none if it is unknown or over its limit.
  function FreeSlotsOf(s: Store, id: WorkerId): nat {
    if HasRoom(s, id) then s.workers[id].available else 0
  }

  // The standby lags exactly by the allocations the master has made since the
  // point its record dates from; so it never shows less capacity than there is.
  lemma LagIsUnseen(ops: seq<PairOp>, cfg: Config, id: WorkerId)
    requires IsPairRun(ops, cfg) && NoBeatSince(ops, Basis(ops, cfg, id), id)
    ensures Tracks(PairEnd(ops, cfg).master, PairEnd(ops, cfg).standby, id, GrantsSince(ops, cfg, Basis(ops, cfg, id), id))
  {
    StandbyIsPastMaster(ops, cfg, id);
    MasterMovesByGrants(ops, cfg, Basis(ops, cfg, id), id);
  }

  // The number of operations up to and including id's last heartbeat.
  function LastBeat(ops: seq<PairOp>, id: WorkerId): (n: nat)
    ensures n <= |ops| && NoBeatSince(ops, n, id)
    ensures n > 0 ==> Beats(ops[n - 1], id)
  {
    if ops == [] || Beats(ops[|ops| - 1], id) then |ops| else LastBeat(ops[..|ops| - 1], id)
  }

  // The number of operations before the snapshot that arrived last was taken,
  // where it is the one pushed just before.
  function LastSync(ops: seq<PairOp>): nat {
    if |ops| < 2 then 0 else if ops[|ops| - 1].Arrive? then |ops| - 2 else LastSync(ops[..|ops| - 1])
  }

  // Every snapshot that arrives is the one pushed just before, and every
  // heartbeat of id reaches both nodes.
  ghost predicate AtOnce(ops: seq<PairOp>, cfg: Config, id: WorkerId)
    requires IsPairRun(ops, cfg)
    decreases |ops|
  {
    ops == [] ||
    (var front, op := ops[..|ops| - 1], ops[|ops| - 1];
     && AtOnce(front, cfg, id)
     && !(op.MasterHeartbeat? && op.hb.workerID == id)
     && (op.Arrive? ==> front != [] && front[|front| - 1].Push? && op.message == |PairEnd(front, cfg).sent| - 1))
  }

  function Later(a: nat, b: nat): nat {
    if a <= b then b else a
  }

  // The point a record dates from is then the later of the last sync and the
  // worker's last heartbeat.
  lemma {:induction false} BasisAtOnce(ops: seq<PairOp>, cfg: Config, id: WorkerId)
    requires IsPairRun(ops, cfg) && AtOnce(ops, cfg, id)
    ensures Basis(ops, cfg, id) == Later(LastSync(ops), LastBeat(ops, id)) <= |ops|
    ensures NoBeatSince(ops, Basis(ops, cfg, id), id)
    decreases |ops|
  {
    if ops != [] {
      var front, op := ops[..|ops| - 1], ops[|ops| - 1];
      BasisAtOnce(front, cfg, id);
      if op.Arrive? {
        assert front[..|front| - 1] == ops[..|ops| - 2];
        assert PairEnd(front, cfg).sent[op.message].takenAt == |ops| - 2;
      }
    }
  }

  // Where syncs and dual-sent heartbeats arrive at once, the two nodes differ by
  // exactly the master's allocations since the later of the last sync and the
  // worker's last heartbeat.
  lemma LagAtOnce(ops: seq<PairOp>, cfg: Config, id: WorkerId)
    requires IsPairRun(ops, cfg) && AtOnce(ops, cfg, id)
    ensures Tracks(PairEnd(ops, cfg).master, PairEnd(ops, cfg).standby, id,
                   GrantsSince(ops, cfg, Later(LastSync(ops), LastBeat(ops, id)), id))
  {
    BasisAtOnce(ops, cfg, id);
    LagIsUnseen(ops, cfg, id);
  }

  // -------------------------------------------------------------- failover

  // The slots of id a node gives out over a run of its own.
  function SlotsGiven(s: Store, ops: seq<Op>, cfg: Config, id: WorkerId): nat
    decreases |ops|
  {
    if ops == [] then 0
    else (if ops[0] == Granted(id) && HasRoom(s, id) then 1 else 0) + SlotsGiven(Apply(s, ops[0], cfg), ops[1..], cfg, id)
  }

  ghost predicate NotHeard(ops: seq<Op>, id: WorkerId) {
    forall op :: op in ops ==> !(op.Heard? && op.hb.workerID == id)
  }

  // The free slots of id shown by each snapshot loaded, all together.
  function SlotsLoaded(ops: seq<Op>, id: WorkerId): nat {
    if ops == [] then 0
    else (if ops[0].Loaded? then FreeSlotsOf(Load(ops[0].snapshot), id) else 0) + SlotsLoaded(ops[1..], id)
  }

  lemma {:induction false} SlotsWithinCapacity(s: Store, ops: seq<Op>, cfg: Config, id: WorkerId)
    requires NotHeard(ops, id)
    ensures SlotsGiven(s, ops, cfg, id) <= FreeSlotsOf(s, id) + SlotsLoaded(ops, id)
    decreases |ops|
  {
    if ops != [] {
      assert ops[0] in ops;
      SlotsWithinCapacity(Apply(s, ops[0], cfg), ops[1..], cfg, id);
    }
  }

  // Failing over: between two heartbeats of a worker both nodes together give
  // out at most the slots it reported free plus those the standby shows, at the
  // promotion and with every late snapshot. If the standby's record is not older
  // than the heartbeat, the excess at the promotion is at most the lag.
  lemma FailoverOvercommit(ops: seq<PairOp>, cfg: Config, id: WorkerId, after: seq<Op>)
    requires IsPairRun(ops, cfg) && NotHeard(after, id)
    ensures Basis(ops, cfg, id) <= |ops|
    ensures var beat, basis := LastBeat(ops, id), Basis(ops, cfg, id);
            var given := GrantsSince(ops, cfg, beat, id) + SlotsGiven(PairEnd(ops, cfg).standby, after, cfg, id);
            var known := FreeSlotsOf(MasterAt(ops, cfg, beat), id) + SlotsLoaded(after, id);
            && given <= known + FreeSlotsOf(MasterAt(ops, cfg, basis), id)
            && (NoBeatSince(ops, basis, id) ==> given <= known + GrantsSince(ops, cfg, basis, id))
  {
    StandbyIsPastMaster(ops, cfg, id);
    MasterMovesByGrants(ops, cfg, LastBeat(ops, id), id);
    SlotsWithinCapacity(PairEnd(ops, cfg).standby, after, cfg, id);
    if NoBeatSince(ops, Basis(ops, cfg, id), id) {
      LagIsUnseen(ops, cfg, id);
      LagWithinGrants(ops, cfg, id);
    }
  }

  // What the standby has not seen the master has given out since the heartbeat.
  lemma LagWithinGrants(ops: seq<PairOp>, cfg: Config, id: WorkerId)
    requires IsPairRun(ops, cfg) && Basis(ops, cfg, id) <= |ops| && NoBeatSince(ops, Basis(ops, cfg, id), id)
    ensures LastBeat(ops, id) <= Basis(ops, cfg, id)
    ensures GrantsSince(ops, cfg, Basis(ops, cfg, id), id) <= GrantsSince(ops, cfg, LastBeat(ops, id), id)
  {
    var beat := LastBeat(ops, id);
    assert beat > 0 ==> Beats(ops[beat - 1], id);
    FewerSinceLater(ops, cfg, beat, Basis(ops, cfg, id), id);
  }

  lemma {:induction false} FewerSinceLater(ops: seq<PairOp>, cfg: Config, n: nat, m: nat, id: WorkerId)
    requires IsPairRun(ops, cfg) && n <= m
    ensures GrantsSince(ops, cfg, m, id) <= GrantsSince(ops, cfg, n, id)
    decreases |ops|
  {
    if |ops| > m {
      FewerSinceLater(ops[..|ops| - 1], cfg, n, m, id);
    }
  }

  // ---------------------------------------------------------- conservation

  // What is known about one worker: the load it last reported and the slots
  // given out since.
  datatype Account = Account(max: int, reported: int, granted: nat)

  datatype Ledger = Ledger(store: Store, accounts: map<WorkerId, Account>)

  // Nodes 0, 1, ... and every snapshot ever taken, with the accounts it was
  // taken from; snapshots arrive late, repeatedly, out of order or never.
  datatype Cluster = Cluster(nodes: seq<Ledger>, sent: seq<(seq<WorkerState>, map<WorkerId, Account>)>)

  datatype ClusterOp =
    | Report(node: nat, hb: Heartbeat, at: Time)
    | Grant(node: nat, id: WorkerId)
    | Scan(node: nat, now: Time)
    | Take(node: nat, snapshot: seq<WorkerState>)
    | Deliver(node: nat, message: nat)

  ghost predicate IsClusterOp(c: Cluster, op: ClusterOp) {
    && op.node < |c.nodes|
    && (op.Report? ==> op.hb.Validate() && IsInt64(op.hb.maxTasks) && IsInt64(op.hb.currentTasks))
    && (op.Take? ==> var w := c.nodes[op.node].store.workers; Lists(op.snapshot, w.Keys, w))
    && (op.Deliver? ==> op.message < |c.sent|)
  }

  function ClusterStep(c: Cluster, op: ClusterOp, cfg: Config): Cluster
    requires op.node < |c.nodes| && (op.Deliver? ==> op.message < |c.sent|)
  {
    var n := c.nodes[op.node];
    match op
    case Report(i, hb, at) =>
      c.(nodes := c.nodes[i := Ledger(Beat(n.store, hb, at), n.accounts[hb.workerID := Account(hb.maxTasks, hb.currentTasks, 0)])])
    case Grant(i, id) =>
      c.(nodes := c.nodes[i := Ledger(Allocate(n.store, id), Charged(n, id))])
    case Scan(i, now) => c.(nodes := c.nodes[i := n.(store := Timeouts(n.store, now, cfg))])
    case Take(_, snapshot) => c.(sent := c.sent + [(snapshot, n.accounts)])
    case Deliver(i, k) => c.(nodes := c.nodes[i := Ledger(Load(c.sent[k].0), c.sent[k].1)])
  }

  function Charged(n: Ledger, id: WorkerId): map<WorkerId, Account> {
    if HasRoom(n.store, id) && id in n.accounts
    then n.accounts[id := n.accounts[id].(granted := n.accounts[id].granted + 1)]
    else n.accounts
  }

  // The record of a worker agrees with its account, stays within the larger of
  // its limit and its report, and fits the machine integers.
  predicate Conserved(w: WorkerState, a: Account) {
    && w.maxTasks == a.max > 0 && a.reported >= 0
    && w.available == w.maxTasks - w.currentTasks
    && w.currentTasks == a.reported + a.granted
    && w.currentTasks <= (if a.max >= a.reported then a.max else a.reported)
    && IsInt64(w.maxTasks) && IsInt64(w.currentTasks) && IsInt64(w.available)
  }

  ghost predicate NodeConserved(n: Ledger) {
    && Coherent(n.store)
    && n.accounts.Keys == n.store.workers.Keys
    && forall id :: id in n.store.workers ==> Conserved(n.store.workers[id], n.accounts[id])
  }

  ghost predicate MessageConserved(m: (seq<WorkerState>, map<WorkerId, Account>)) {
    && DistinctIds(m.0)
    && m.1.Keys == IdsOf(m.0)
    && forall w :: w in m.0 ==> w.workerID in m.1 && Conserved(w, m.1[w.workerID])
  }

  ghost predicate ClusterConserved(c: Cluster) {
    && (forall i :: 0 <= i < |c.nodes| ==> NodeConserved(c.nodes[i]))
    && (forall k :: 0 <= k < |c.sent| ==> MessageConserved(c.sent[k]))
  }

  lemma BeatConserved(n: Ledger, hb: Heartbeat, at: Time)
    requires NodeConserved(n) && hb.Validate() && IsInt64(hb.maxTasks) && IsInt64(hb.currentTasks)
    ensures NodeConserved(Ledger(Beat(n.store, hb, at), n.accounts[hb.workerID := Account(hb.maxTasks, hb.currentTasks, 0)]))
  {
    BeatCoherent(n.store, hb, at);
  }

  lemma GrantConserved(n: Ledger, id: WorkerId)
    requires NodeConserved(n)
    ensures NodeConserved(Ledger(Allocate(n.store, id), Charged(n, id)))
  {
    AllocateCoherent(n.store, id);
  }

  lemma ScanConserved(n: Ledger, now: Time, cfg: Config)
    requires NodeConserved(n)
    ensures NodeConserved(n.(store := Timeouts(n.store, now, cfg)))
  {
    TimeoutsCoherent(n.store, now, cfg);
  }

  lemma LoadConserved(m: (seq<WorkerState>, map<WorkerId, Account>))
    requires MessageConserved(m)
    ensures NodeConserved(Ledger(Load(m.0), m.1))
  {
    LoadContents(m.0);
    LoadExactIff(m.0);
  }

  lemma TakeConserved(n: Ledger, snapshot: seq<WorkerState>)
    requires NodeConserved(n) && Lists(snapshot, n.store.workers.Keys, n.store.workers)
    ensures MessageConserved((snapshot, n.accounts))
  {
  }

  lemma StepConserved(c: Cluster, op: ClusterOp, cfg: Config)
    requires ClusterConserved(c) && IsClusterOp(c, op)
    ensures ClusterConserved(ClusterStep(c, op, cfg))
    ensures |ClusterStep(c, op, cfg).nodes| == |c.nodes|
  {
    var n := c.nodes[op.node];
    match op {
      case Report(_, hb, at) => BeatConserved(n, hb, at);
      case Grant(_, id) => GrantConserved(n, id);
      case Scan(_, now) => ScanConserved(n, now, cfg);
      case Take(_, snapshot) => TakeConserved(n, snapshot);
      case Deliver(_, k) => LoadConserved(c.sent[k]);
    }
  }

  ghost function ClusterEnd(c: Cluster, ops: seq<ClusterOp>, cfg: Config): Cluster
    requires IsClusterRun(c, ops, cfg)
    decreases |ops|
  {
    if ops == [] then c else ClusterEnd(ClusterStep(c, ops[0], cfg), ops[1..], cfg)
  }

  ghost predicate IsClusterRun(c: Cluster, ops: seq<ClusterOp>, cfg: Config)
    decreases |ops|
  {
    ops == [] || (IsClusterOp(c, ops[0]) && IsClusterRun(ClusterStep(c, ops[0], cfg), ops[1..], cfg))
  }

  // Conservation on every node and in every snapshot on its way, over all
  // interleavings of validated heartbeats, allocations, scans and deliveries.
  lemma {:induction false} ConservedOverRuns(c: Cluster, ops: seq<ClusterOp>, cfg: Config)
    requires ClusterConserved(c) && IsClusterRun(c, ops, cfg)
    ensures ClusterConserved(ClusterEnd(c, ops, cfg))
    decreases |ops|
  {
    if ops != [] {
      StepConserved(c, ops[0], cfg);
      ConservedOverRuns(ClusterStep(c, ops[0], cfg), ops[1..], cfg);
    }
  }
}
