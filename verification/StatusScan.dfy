// Worker status: a label updated lazily by heartbeats and timeout scans, against
// the status a worker's heartbeat age says it should have.
module StatusScan {
  import opened Types
  import opened WorkerStore

  function Classify(age: Time, cfg: Config): WorkerStatus {
    if age > cfg.offline then Offline else if age > cfg.suspicious then Suspicious else Online
  }

  function Rank(status: WorkerStatus): nat {
    match status
    case Online => 0
    case Suspicious => 1
    case Offline => 2
  }

  function Strictest(cfg: Config): Time {
    if cfg.suspicious < cfg.offline then cfg.suspicious else cfg.offline
  }

  predicate Positive(cfg: Config) {
    cfg.suspicious > 0 && cfg.offline > 0
  }

  // ------------------------------------------------ nodes on a common clock

  // A node's store, and the time of the last scan its table has been through
  // (at first, of its start). A loaded table was last scanned where it was taken.
  datatype Site = Site(store: Store, scanned: Time)

  // A snapshot under way: it arrives late, out of order, repeatedly or never.
  datatype TableCopy = TableCopy(records: seq<WorkerState>, scanned: Time)

  datatype Fleet = Fleet(clock: Time, sites: seq<Site>, sent: seq<TableCopy>)

  datatype FleetOp =
    | Act(site: nat, op: Op)
    | Take(site: nat, records: seq<WorkerState>)
    | Deliver(site: nat, message: nat)

  function TimeOf(op: Op, clock: Time): Time {
    match op
    case Heard(_, at) => at
    case Scanned(now) => now
    case _ => clock
  }

  // Heartbeats and scans read a clock that never goes back; tables are loaded
  // only from snapshots of these nodes.
  ghost predicate Possible(f: Fleet, op: FleetOp) {
    && op.site < |f.sites|
    && (op.Act? ==> !op.op.Loaded? && TimeOf(op.op, f.clock) >= f.clock)
    && (op.Take? ==> var w := f.sites[op.site].store.workers; Lists(op.records, w.Keys, w))
    && (op.Deliver? ==> op.message < |f.sent|)
  }

  function Step(f: Fleet, op: FleetOp, cfg: Config): Fleet
    requires op.site < |f.sites| && (op.Deliver? ==> op.message < |f.sent|)
  {
    var here := f.sites[op.site];
    match op
    case Act(i, act) =>
      Fleet(TimeOf(act, f.clock),
            f.sites[i := Site(Apply(here.store, act, cfg), if act.Scanned? then act.now else here.scanned)],
            f.sent)
    case Take(_, records) => f.(sent := f.sent + [TableCopy(records, here.scanned)])
    case Deliver(i, k) => f.(sites := f.sites[i := Site(Load(f.sent[k].records), f.sent[k].scanned)])
  }

  ghost predicate IsRun(f: Fleet, ops: seq<FleetOp>, cfg: Config)
    decreases |ops|
  {
    ops == [] || (Possible(f, ops[0]) && IsRun(Step(f, ops[0], cfg), ops[1..], cfg))
  }

  ghost function End(f: Fleet, ops: seq<FleetOp>, cfg: Config): (end: Fleet)
    requires IsRun(f, ops, cfg)
    ensures |end.sites| == |f.sites|
    decreases |ops|
  {
    if ops == [] then f else End(Step(f, ops[0], cfg), ops[1..], cfg)
  }

  function Started(at: Time, n: nat): Fleet {
    Fleet(at, seq(n, _ => Site(EMPTY, at)), [])
  }

  // ------------------------------------------------------------- invariant

  // A label never runs ahead of the heartbeat age, and a worker still Online
  // was fresh enough at the last scan.
  predicate IsSound(w: WorkerState, clock: Time, scanned: Time, cfg: Config) {
    && w.lastHeartbeat <= clock
    && Rank(w.status) <= Rank(Classify(clock - w.lastHeartbeat, cfg))
    && (w.status == Online ==> scanned - w.lastHeartbeat <= Strictest(cfg))
  }

  ghost predicate SiteInv(n: Site, clock: Time, cfg: Config) {
    n.scanned <= clock && Coherent(n.store) && forall id :: id in n.store.workers ==> IsSound(n.store.workers[id], clock, n.scanned, cfg)
  }

  ghost predicate CopyInv(m: TableCopy, clock: Time, cfg: Config) {
    m.scanned <= clock && forall w :: w in m.records ==> IsSound(w, clock, m.scanned, cfg)
  }

  ghost predicate Inv(f: Fleet, cfg: Config) {
    && (forall i :: 0 <= i < |f.sites| ==> SiteInv(f.sites[i], f.clock, cfg))
    && (forall k :: 0 <= k < |f.sent| ==> CopyInv(f.sent[k], f.clock, cfg))
  }

  lemma ActInv(n: Site, clock: Time, op: Op, cfg: Config)
    requires Positive(cfg) && SiteInv(n, clock, cfg) && !op.Loaded? && TimeOf(op, clock) >= clock
    ensures SiteInv(Site(Apply(n.store, op, cfg), if op.Scanned? then op.now else n.scanned), TimeOf(op, clock), cfg)
  {
    ApplyCoherent(n.store, op, cfg);
  }

  lemma LoadInv(m: TableCopy, clock: Time, cfg: Config)
    requires CopyInv(m, clock, cfg)
    ensures SiteInv(Site(Load(m.records), m.scanned), clock, cfg)
  {
    LoadContents(m.records);
    LoadCoherent(m.records);
  }

  lemma LaterInv(f: Fleet, clock: Time, cfg: Config)
    requires Inv(f, cfg) && f.clock <= clock
    ensures Inv(f.(clock := clock), cfg)
  {
  }

  lemma StepInv(f: Fleet, op: FleetOp, cfg: Config)
    requires Positive(cfg) && Inv(f, cfg) && Possible(f, op)
    ensures Inv(Step(f, op, cfg), cfg) && |Step(f, op, cfg).sites| == |f.sites|
  {
    var here := f.sites[op.site];
    assert SiteInv(here, f.clock, cfg);
    match op {
      case Act(_, act) =>
        LaterInv(f, TimeOf(act, f.clock), cfg);
        ActInv(here, f.clock, act, cfg);
      case Take(_, records) => assert CopyInv(TableCopy(records, here.scanned), f.clock, cfg);
      case Deliver(_, k) => LoadInv(f.sent[k], f.clock, cfg);
    }
  }

  lemma {:induction false} InvOverRuns(f: Fleet, ops: seq<FleetOp>, cfg: Config)
    requires Positive(cfg) && Inv(f, cfg) && IsRun(f, ops, cfg)
    ensures Inv(End(f, ops, cfg), cfg)
    ensures End(f, ops, cfg).clock >= f.clock
    decreases |ops|
  {
    if ops != [] {
      StepInv(f, ops[0], cfg);
      InvOverRuns(Step(f, ops[0], cfg), ops[1..], cfg);
    }
  }

  // ------------------------------------- the heartbeat a record goes back to

  // op is the heartbeat that w still shows.
  predicate IsSourceOf(op: FleetOp, w: WorkerState) {
    op.Act? && op.op.Heard? && Reports(w, op.op.hb, op.op.at)
  }

  ghost predicate InTable(s: Store, w: WorkerState) {
    exists id :: id in s.workers && SameReport(s.workers[id], w)
  }

  ghost predicate InCopy(m: TableCopy, w: WorkerState) {
    exists v :: v in m.records && SameReport(v, w)
  }

  // Some node's table or some snapshot has a record like w.
  ghost predicate Holds(f: Fleet, w: WorkerState) {
    (exists i :: 0 <= i < |f.sites| && InTable(f.sites[i].store, w)) || (exists k :: 0 <= k < |f.sent| && InCopy(f.sent[k], w))
  }

  lemma TableStepHolds(f: Fleet, op: FleetOp, cfg: Config, i: nat, w: WorkerState)
    requires Possible(f, op) && i < |f.sites| && InTable(Step(f, op, cfg).sites[i].store, w)
    ensures Holds(f, w) || IsSourceOf(op, w)
  {
    var workers := Step(f, op, cfg).sites[i].store.workers;
    var id :| id in workers && SameReport(workers[id], w);
    if op.Deliver? && i == op.site {
      LoadContents(f.sent[op.message].records);
      assert InCopy(f.sent[op.message], w);
    } else if id in f.sites[i].store.workers && SameReport(f.sites[i].store.workers[id], w) {
      assert InTable(f.sites[i].store, w);
    }
  }

  lemma CopyStepHolds(f: Fleet, op: FleetOp, cfg: Config, k: nat, w: WorkerState)
    requires Possible(f, op) && k < |Step(f, op, cfg).sent| && InCopy(Step(f, op, cfg).sent[k], w)
    ensures Holds(f, w)
  {
    if k < |f.sent| {
      assert InCopy(f.sent[k], w);
    } else {
      assert InTable(f.sites[op.site].store, w);
    }
  }

  lemma StepHolds(f: Fleet, op: FleetOp, cfg: Config, w: WorkerState)
    requires Possible(f, op) && Holds(Step(f, op, cfg), w)
    ensures Holds(f, w) || IsSourceOf(op, w)
  {
    var next := Step(f, op, cfg);
    if i: nat :| i < |next.sites| && InTable(next.sites[i].store, w) {
      TableStepHolds(f, op, cfg, i, w);
    }
    if k: nat :| k < |next.sent| && InCopy(next.sent[k], w) {
      CopyStepHolds(f, op, cfg, k, w);
    }
  }

  lemma {:induction false} HoldsFromRun(f: Fleet, ops: seq<FleetOp>, cfg: Config, w: WorkerState)
    requires IsRun(f, ops, cfg) && Holds(End(f, ops, cfg), w)
    ensures Holds(f, w) || exists k :: 0 <= k < |ops| && IsSourceOf(ops[k], w)
    decreases |ops|
  {
    if ops != [] {
      HoldsFromRun(Step(f, ops[0], cfg), ops[1..], cfg, w);
      if k :| 0 <= k < |ops[1..]| && IsSourceOf(ops[1..][k], w) {
        assert IsSourceOf(ops[k + 1], w);
      } else {
        StepHolds(f, ops[0], cfg, w);
      }
    }
  }

  predicate IsNewsAt(op: FleetOp, i: nat, id: WorkerId) {
    op.site == i && (op.Deliver? || (op.Act? && op.op.Heard? && op.op.hb.workerID == id))
  }

  // The last heartbeat of id or snapshot that came in at node i.
  function LastNewsAt(ops: seq<FleetOp>, i: nat, id: WorkerId): (last: Option<nat>)
    ensures last.Some? ==> last.value < |ops| && IsNewsAt(ops[last.value], i, id)
    ensures forall j :: 0 <= j < |ops| && (last.Some? ==> j > last.value) ==> !IsNewsAt(ops[j], i, id)
  {
    if ops == [] then None
    else
      var later := LastNewsAt(ops[1..], i, id);
      if later.Some? then Some(later.value + 1)
      else if IsNewsAt(ops[0], i, id) then Some(0)
      else None
  }

  // Between news the record keeps what it shows; scans leave it alone.
  lemma {:induction false} LocalNews(f: Fleet, ops: seq<FleetOp>, cfg: Config, i: nat, id: WorkerId)
    requires IsRun(f, ops, cfg) && i < |f.sites|
    ensures var last, was, now := LastNewsAt(ops, i, id), f.sites[i].store.workers, End(f, ops, cfg).sites[i].store.workers;
            && (last.None? ==> (id in now <==> id in was) && (id in now ==> SameReport(now[id], was[id])))
            && (last.Some? && ops[last.value].Act? ==> id in now && IsSourceOf(ops[last.value], now[id]))
    decreases |ops|
  {
    if ops != [] {
      LocalNews(Step(f, ops[0], cfg), ops[1..], cfg, i, id);
    }
  }

  // ops[k] is a heartbeat of id, and if the last news of id at node i was a
  // heartbeat, it is that one.
  predicate GoesBackTo(ops: seq<FleetOp>, i: nat, id: WorkerId, k: nat) {
    && k < |ops| && ops[k].Act? && ops[k].op.Heard? && ops[k].op.hb.workerID == id
    && (LastNewsAt(ops, i, id).Some? && ops[LastNewsAt(ops, i, id).value].Act? ==> LastNewsAt(ops, i, id).value == k)
  }

  // Every record on every node, also one that came in a snapshot, shows what one
  // heartbeat of that worker reported, and when; where the last news was not a
  // snapshot, what the last heartbeat there reported.
  lemma RecordsGoBack(start: Time, n: nat, ops: seq<FleetOp>, cfg: Config, i: nat, id: WorkerId) returns (k: nat)
    requires Positive(cfg) && IsRun(Started(start, n), ops, cfg) && i < n
    requires id in End(Started(start, n), ops, cfg).sites[i].store.workers
    ensures GoesBackTo(ops, i, id, k)
    ensures Reports(End(Started(start, n), ops, cfg).sites[i].store.workers[id], ops[k].op.hb, ops[k].op.at)
  {
    var f := Started(start, n);
    var end := End(f, ops, cfg);
    var w := end.sites[i].store.workers[id];
    InvOverRuns(f, ops, cfg);
    assert SiteInv(end.sites[i], end.clock, cfg);
    LocalNews(f, ops, cfg, i, id);
    var last := LastNewsAt(ops, i, id);
    if last.Some? && ops[last.value].Act? {
      k := last.value;
    } else {
      assert InTable(end.sites[i].store, w);
      HoldsFromRun(f, ops, cfg, w);
      k :| 0 <= k < |ops| && IsSourceOf(ops[k], w);
    }
  }

  // ops[m] is a scan at node i, and no snapshot was loaded there afterwards.
  predicate IsScanAt(ops: seq<FleetOp>, i: nat, m: nat) {
    && m < |ops| && ops[m].Act? && ops[m].site == i && ops[m].op.Scanned?
    && forall j :: m < j < |ops| && ops[j].Deliver? ==> ops[j].site != i
  }

  lemma {:induction false} ScanCounts(f: Fleet, ops: seq<FleetOp>, cfg: Config, i: nat, m: int)
    requires Positive(cfg) && Inv(f, cfg) && IsRun(f, ops, cfg) && i < |f.sites|
    requires if m < 0 then forall j :: 0 <= j < |ops| && ops[j].Deliver? ==> ops[j].site != i else IsScanAt(ops, i, m)
    ensures End(f, ops, cfg).sites[i].scanned >= if m < 0 then f.sites[i].scanned else ops[m].op.now
    decreases |ops|
  {
    if ops != [] {
      StepInv(f, ops[0], cfg);
      assert SiteInv(f.sites[i], f.clock, cfg);
      ScanCounts(Step(f, ops[0], cfg), ops[1..], cfg, i, m - 1);
    }
  }

  // ------------------------------------------------------------- theorems

  // Right after every scan each label classifies the age of the heartbeat its
  // record goes back to, although a scan never writes Online; on every node,
  // whatever snapshots it has loaded.
  lemma ScanClassifies(start: Time, n: nat, ops: seq<FleetOp>, i: nat, now: Time, cfg: Config, id: WorkerId) returns (k: nat)
    requires Positive(cfg) && IsRun(Started(start, n), ops, cfg) && i < n
    requires now >= End(Started(start, n), ops, cfg).clock
    requires id in End(Started(start, n), ops, cfg).sites[i].store.workers
    ensures GoesBackTo(ops, i, id, k)
    ensures var scanned := Timeouts(End(Started(start, n), ops, cfg).sites[i].store, now, cfg).workers;
            var age := now - ops[k].op.at;
            && id in scanned
            && (scanned[id].status == Offline <==> age > cfg.offline)
            && (scanned[id].status == Suspicious <==> cfg.suspicious < age <= cfg.offline)
            && (scanned[id].status == Online <==> age <= cfg.suspicious && age <= cfg.offline)
  {
    k := RecordsGoBack(start, n, ops, cfg, i, id);
    InvOverRuns(Started(start, n), ops, cfg);
    var end := End(Started(start, n), ops, cfg);
    assert SiteInv(end.sites[i], end.clock, cfg);
  }

  // A worker labelled Online: the heartbeat its record goes back to is at most
  // either threshold plus the time since the last scan of its table old, and at
  // no scan of this table was it older than a threshold.
  lemma OnlineIsFresh(start: Time, n: nat, ops: seq<FleetOp>, i: nat, cfg: Config, id: WorkerId) returns (k: nat)
    requires Positive(cfg) && IsRun(Started(start, n), ops, cfg) && i < n
    requires var site := End(Started(start, n), ops, cfg).sites[i];
             id in site.store.workers && site.store.workers[id].status == Online
    ensures GoesBackTo(ops, i, id, k)
    ensures var end := End(Started(start, n), ops, cfg);
            var age, unscanned := end.clock - ops[k].op.at, end.clock - end.sites[i].scanned;
            age <= cfg.suspicious + unscanned && age <= cfg.offline + unscanned
    ensures forall m: nat :: IsScanAt(ops, i, m) ==>
              var age := ops[m].op.now - ops[k].op.at; age <= cfg.suspicious && age <= cfg.offline
  {
    k := RecordsGoBack(start, n, ops, cfg, i, id);
    var f := Started(start, n);
    InvOverRuns(f, ops, cfg);
    var end := End(f, ops, cfg);
    assert SiteInv(end.sites[i], end.clock, cfg);
    forall m: nat | IsScanAt(ops, i, m)
      ensures end.sites[i].scanned >= ops[m].op.now
    {
      ScanCounts(f, ops, cfg, i, m);
    }
  }

  // id is still known at node i, with a label no better than before.
  predicate NoBetter(before: Site, after: Site, id: WorkerId) {
    id in before.store.workers ==>
      id in after.store.workers && Rank(before.store.workers[id].status) <= Rank(after.store.workers[id].status)
  }

  // At no step of the run is id's label at node i improved or forgotten.
  ghost predicate OnlyWorsens(f: Fleet, ops: seq<FleetOp>, cfg: Config, i: nat, id: WorkerId)
    requires IsRun(f, ops, cfg)
    decreases |ops|
  {
    ops == [] ||
    (&& (i < |f.sites| ==> NoBetter(f.sites[i], Step(f, ops[0], cfg).sites[i], id))
     && OnlyWorsens(Step(f, ops[0], cfg), ops[1..], cfg, i, id))
  }

  // op is a heartbeat of id at node i while its label is not Online, or delivers
  // there a snapshot without id or with a better label of it.
  predicate Improves(f: Fleet, op: FleetOp, i: nat, id: WorkerId)
    requires op.Deliver? ==> op.message < |f.sent|
  {
    && op.site == i < |f.sites| && id in f.sites[i].store.workers
    && (var status := f.sites[i].store.workers[id].status;
        match op
        case Act(_, Heard(hb, _)) => hb.workerID == id && status != Online
        case Deliver(_, k) =>
          var records := f.sent[k].records;
          id !in IdsOf(records) || Rank(Last(records, id).status) < Rank(status)
        case _ => false)
  }

  ghost predicate NothingImproves(f: Fleet, ops: seq<FleetOp>, cfg: Config, i: nat, id: WorkerId)
    requires IsRun(f, ops, cfg)
    decreases |ops|
  {
    ops == [] ||
    (!Improves(f, ops[0], i, id) && NothingImproves(Step(f, ops[0], cfg), ops[1..], cfg, i, id))
  }

  lemma StepWorsensIff(f: Fleet, op: FleetOp, cfg: Config, i: nat, id: WorkerId)
    requires Positive(cfg) && Inv(f, cfg) && Possible(f, op) && i < |f.sites|
    ensures NoBetter(f.sites[i], Step(f, op, cfg).sites[i], id) <==> !Improves(f, op, i, id)
  {
    assert SiteInv(f.sites[i], f.clock, cfg);
    if op.Deliver? {
      LoadContents(f.sent[op.message].records);
    }
  }

  // A worker's label only moves from Online to Suspicious to Offline, except
  // exactly where a heartbeat or a snapshot with better news of it comes in.
  lemma {:induction false} StatusOnlyWorsensIff(f: Fleet, ops: seq<FleetOp>, cfg: Config, i: nat, id: WorkerId)
    requires Positive(cfg) && Inv(f, cfg) && IsRun(f, ops, cfg) && i < |f.sites|
    ensures OnlyWorsens(f, ops, cfg, i, id) <==> NothingImproves(f, ops, cfg, i, id)
    decreases |ops|
  {
    if ops != [] {
      StepInv(f, ops[0], cfg);
      StepWorsensIff(f, ops[0], cfg, i, id);
      StatusOnlyWorsensIff(Step(f, ops[0], cfg), ops[1..], cfg, i, id);
    }
  }

  // So between its heartbeats, with no snapshot loaded there either, a worker's
  // label at a node only gets worse, after every run from the start.
  lemma {:induction false} StatusOnlyWorsens(f: Fleet, ops: seq<FleetOp>, cfg: Config, i: nat, id: WorkerId)
    requires Positive(cfg) && Inv(f, cfg) && IsRun(f, ops, cfg) && i < |f.sites|
    requires forall op :: op in ops && op.site == i ==> !op.Deliver? && !(op.Act? && op.op.Heard? && op.op.hb.workerID == id)
    ensures |End(f, ops, cfg).sites| == |f.sites|
    ensures NothingImproves(f, ops, cfg, i, id)
    ensures NoBetter(f.sites[i], End(f, ops, cfg).sites[i], id)
    decreases |ops|
  {
    if ops != [] {
      assert ops[0] in ops;
      StepInv(f, ops[0], cfg);
      StepWorsensIff(f, ops[0], cfg, i, id);
      StatusOnlyWorsens(Step(f, ops[0], cfg), ops[1..], cfg, i, id);
    }
  }

  lemma StatusOnlyWorsensInRuns(start: Time, n: nat, before: seq<FleetOp>, after: seq<FleetOp>, cfg: Config, i: nat, id: WorkerId)
    requires Positive(cfg) && IsRun(Started(start, n), before, cfg) && i < n
    requires IsRun(End(Started(start, n), before, cfg), after, cfg)
    ensures var f := End(Started(start, n), before, cfg);
            && |f.sites| == |End(f, after, cfg).sites| == n
            && (OnlyWorsens(f, after, cfg, i, id) <==> NothingImproves(f, after, cfg, i, id))
            && ((forall op :: op in after && op.site == i ==>
                   !op.Deliver? && !(op.Act? && op.op.Heard? && op.op.hb.workerID == id)) ==>
                  NoBetter(f.sites[i], End(f, after, cfg).sites[i], id))
  {
    InvOverRuns(Started(start, n), before, cfg);
    var f := End(Started(start, n), before, cfg);
    InvOverRuns(f, after, cfg);
    StatusOnlyWorsensIff(f, after, cfg, i, id);
    if forall op :: op in after && op.site == i ==> !op.Deliver? && !(op.Act? && op.op.Heard? && op.op.hb.workerID == id) {
      StatusOnlyWorsens(f, after, cfg, i, id);
    }
  }
}
