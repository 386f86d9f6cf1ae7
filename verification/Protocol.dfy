// N request goroutines, heartbeats, timeout scans and snapshot loads
// interleaved at critical-section granularity. A channel is named by the number
// of broadcasts before it was armed, so it is closed iff that number is below
// the current generation.
module Protocol {
  import opened Types
  import opened WorkerStore
  import opened Selection

  type ThreadId = nat

  datatype Pc =
    | Idle
    | FirstAttempt(req: ScheduleRequest)
    | Arming(req: ScheduleRequest)                 // about to fetch the channel
    | Holding(req: ScheduleRequest, chan: nat)     // fetched it, about to retry
    | Parked(req: ScheduleRequest, chan: nat)      // in the select
    | Allocating(req: ScheduleRequest, choice: WorkerId, address: string)
    | Done(resp: ScheduleResponse, endGen: nat)

  // The counters restart with every call of Schedule.
  datatype Thread = Thread(pc: Pc, startGen: nat, attempts: nat, granted: nat)

  // broadcastDue: a writer holds the table lock between its update and its
  // broadcast.
  datatype Sys = Sys(store: Store, cfg: Config, broadcastDue: bool, gen: nat, threads: map<ThreadId, Thread>)

  // The steps a request thread takes.
  datatype Step =
    | Submit(req: ScheduleRequest)
    | Read(pick: Option<WorkerId>)
    | FetchChannel
    | Commit
    | Wake
    | Expire
    | Cancel

  datatype Action =
    | WriteHeartbeat(hb: Heartbeat, now: Time)
    | WriteSnapshot(snapshot: Snapshot)
    | Broadcast
    | ScanTimeouts(now: Time)
    | By(t: ThreadId, step: Step)

  // ------------------------------------------------------------ semantics

  predicate CanStep(s: Sys, pc: Pc, step: Step) {
    match step
    case Submit(_) => pc.Idle? || pc.Done?
    case Read(pick) =>
      && !s.broadcastDue
      && (pc.FirstAttempt? || pc.Holding?)
      && (pick.None? ==> Eligible(s.store, pc.req.requiredTags) == {})
      && (pick.Some? ==> pick.value in Choices(s.store, pc.req.requiredTags))
    case FetchChannel => pc.Arming?
    case Commit => !s.broadcastDue && pc.Allocating?
    case Wake => pc.Parked? && pc.chan < s.gen
    case Expire => pc.Parked?
    case Cancel => pc.Parked?
  }

  // Reads and writes of the table wait for the lock; fetching the channel,
  // waking and giving up do not.
  predicate Enabled(s: Sys, a: Action) {
    if a.By? then a.t in s.threads && CanStep(s, s.threads[a.t].pc, a.step)
    else s.broadcastDue == a.Broadcast?
  }

  // What an attempt that finds no worker leaves of its thread.
  function Unserved(th: Thread, gen: nat): Thread
    requires th.pc.FirstAttempt? || th.pc.Holding?
  {
    th.(attempts := th.attempts + 1,
        pc := if th.pc.Holding? then Parked(th.pc.req, th.pc.chan)
              else if th.pc.req.maxWaitMS <= 0 then Done(Refused(NoWorker), gen)
              else Arming(th.pc.req))
  }

  function Stepped(s: Sys, th: Thread, step: Step): Thread
    requires CanStep(s, th.pc, step)
  {
    match step
    case Submit(req) =>
      Thread(if req.Validate() then FirstAttempt(req) else Done(Refused(InvalidRequest), s.gen), s.gen, 0, 0)
    case Read(Some(id)) =>
      th.(pc := Allocating(th.pc.req, id, s.store.workers[id].address), attempts := th.attempts + 1)
    case Read(None) => Unserved(th, s.gen)
    case FetchChannel => th.(pc := Holding(th.pc.req, s.gen))
    case Commit =>
      th.(pc := Done(Assigned(th.pc.choice, th.pc.address), s.gen),
          granted := th.granted + if HasRoom(s.store, th.pc.choice) then 1 else 0)
    case Wake => th.(pc := Arming(th.pc.req))
    case Expire => th.(pc := Done(Refused(TimedOut), s.gen))
    case Cancel => th.(pc := Done(Refused(Canceled), s.gen))
  }

  function Next(s: Sys, a: Action): Sys
    requires Enabled(s, a)
  {
    match a
    case WriteHeartbeat(hb, now) =>
      s.(store := Beat(s.store, hb, now), broadcastDue := hb.maxTasks - hb.currentTasks > 0)
    case WriteSnapshot(snapshot) =>
      s.(store := Load(Received(snapshot)), broadcastDue := IsWhole(snapshot))
    case Broadcast => s.(gen := s.gen + 1, broadcastDue := false)
    case ScanTimeouts(now) => s.(store := Timeouts(s.store, now, s.cfg))
    case By(t, step) =>
      var th := s.threads[t];
      s.(threads := s.threads[t := Stepped(s, th, step)],
         store := if step.Commit? then Allocate(s.store, th.pc.choice) else s.store)
  }

  predicate Legal(s: Sys, actions: seq<Action>)
    decreases |actions|
  {
    actions == [] || (Enabled(s, actions[0]) && Legal(Next(s, actions[0]), actions[1..]))
  }

  function After(s: Sys, actions: seq<Action>): Sys
    requires Legal(s, actions)
    decreases |actions|
  {
    if actions == [] then s else After(Next(s, actions[0]), actions[1..])
  }

  ghost predicate Init(s: Sys) {
    s.store == EMPTY && !s.broadcastDue && s.gen == 0 && forall t :: t in s.threads ==> s.threads[t] == Thread(Idle, 0, 0, 0)
  }

  lemma {:induction false} RunsCompose(s: Sys, a: seq<Action>, b: seq<Action>)
    requires Legal(s, a) && Legal(After(s, a), b)
    ensures Legal(s, a + b) && After(s, a + b) == After(After(s, a), b)
    decreases |a|
  {
    if a == [] {
      assert a + b == b;
    } else {
      assert (a + b)[1..] == a[1..] + b;
      RunsCompose(Next(s, a[0]), a[1..], b);
    }
  }

  lemma Extend(s: Sys, trace: seq<Action>, a: Action)
    requires Legal(s, trace) && Enabled(After(s, trace), a)
    ensures Legal(s, trace + [a]) && After(s, trace + [a]) == Next(After(s, trace), a)
  {
    var now := After(s, trace);
    assert [a][1..] == [];
    assert Legal(now, [a]);
    RunsCompose(s, trace, [a]);
  }

  lemma Prepend(s: Sys, a: Action, rest: seq<Action>)
    ensures Legal(s, [a] + rest) <==> Enabled(s, a) && Legal(Next(s, a), rest)
    ensures Legal(s, [a] + rest) ==> After(s, [a] + rest) == After(Next(s, a), rest)
  {
    assert ([a] + rest)[1..] == rest;
  }

  // ------------------------------------------------------------ invariant

  ghost predicate ThreadInv(s: Sys, th: Thread) {
    match th.pc
    case Idle => th.startGen <= s.gen && th.attempts == th.granted == 0
    case FirstAttempt(_) => th.startGen <= s.gen && th.attempts == th.granted == 0
    case Arming(_) => th.startGen <= s.gen && th.attempts <= 1 + s.gen - th.startGen && th.granted == 0
    case Holding(_, chan) =>
      th.startGen <= chan <= s.gen && th.attempts <= 1 + chan - th.startGen && th.granted == 0
    case Parked(_, chan) =>
      th.startGen <= chan <= s.gen && th.attempts <= 2 + chan - th.startGen && th.granted == 0
    case Allocating(_, _, _) => th.startGen <= s.gen && th.attempts <= 2 + s.gen - th.startGen && th.granted == 0
    case Done(resp, endGen) =>
      && th.startGen <= endGen <= s.gen && th.attempts <= 2 + endGen - th.startGen
      && th.granted <= 1 && (resp.Refused? ==> th.granted == 0)
  }

  ghost predicate Inv(s: Sys) {
    Coherent(s.store) && forall t :: t in s.threads ==> ThreadInv(s, s.threads[t])
  }

  // A heartbeat that reports no free slot makes nobody eligible.
  lemma FullBeatFreesNobody(s: Store, hb: Heartbeat, now: Time, required: seq<Tag>)
    requires Coherent(s) && hb.maxTasks - hb.currentTasks <= 0
    ensures Eligible(Beat(s, hb, now), required) <= Eligible(s, required)
  {
  }

  lemma NextKeepsOthers(s: Sys, a: Action, th: Thread)
    requires Enabled(s, a) && ThreadInv(s, th)
    ensures ThreadInv(Next(s, a), th)
  {
  }

  lemma NextKeepsActor(s: Sys, t: ThreadId, step: Step)
    requires Enabled(s, By(t, step)) && ThreadInv(s, s.threads[t])
    ensures ThreadInv(s, Stepped(s, s.threads[t], step))
  {
  }

  lemma NextCoherent(s: Sys, a: Action)
    requires Coherent(s.store) && Enabled(s, a)
    ensures Coherent(Next(s, a).store)
  {
    match a {
      case WriteHeartbeat(hb, now) => BeatCoherent(s.store, hb, now);
      case WriteSnapshot(snapshot) => LoadCoherent(Received(snapshot));
      case ScanTimeouts(now) => TimeoutsCoherent(s.store, now, s.cfg);
      case By(t, Commit) => AllocateCoherent(s.store, s.threads[t].pc.choice);
      case _ =>
    }
  }

  lemma NextInv(s: Sys, a: Action)
    requires Inv(s) && Enabled(s, a)
    ensures Inv(Next(s, a))
  {
    NextCoherent(s, a);
    forall t | t in s.threads
      ensures ThreadInv(Next(s, a), Next(s, a).threads[t])
    {
      if a.By? && a.t == t {
        NextKeepsActor(s, t, a.step);
      } else {
        NextKeepsOthers(s, a, s.threads[t]);
      }
    }
  }

  lemma {:induction false} InvOverRuns(s: Sys, actions: seq<Action>)
    requires Inv(s) && Legal(s, actions)
    ensures Inv(After(s, actions))
    ensures After(s, actions).threads.Keys == s.threads.Keys
    ensures After(s, actions).gen >= s.gen
    decreases |actions|
  {
    if actions != [] {
      NextInv(s, actions[0]);
      InvOverRuns(Next(s, actions[0]), actions[1..]);
    }
  }

  // ---------------------------------------------------------- lost wakeups

  // t is parked on a channel nobody has closed and no broadcast is due, although
  // there is a worker it could be given.
  predicate Lost(s: Sys, t: ThreadId) {
    && t in s.threads && s.threads[t].pc.Parked?
    && s.threads[t].pc.chan >= s.gen && !s.broadcastDue
    && Eligible(s.store, s.threads[t].pc.req.requiredTags) != {}
  }

  ghost predicate NoneLost(s: Sys) {
    forall t :: t in s.threads ==> !Lost(s, t)
  }

  // A snapshot that cannot leave a waiter behind: it has no nil record, or none
  // of the workers it loads before that record is free.
  predicate IsSafe(snapshot: Snapshot) {
    IsWhole(snapshot) ||
    forall id :: id in Load(Received(snapshot)).workers ==> !IsFree(Load(Received(snapshot)).workers[id])
  }

  // One free worker before a nil record is already unsafe.
  lemma UnsafeSnapshot(w: WorkerState)
    requires IsFree(w)
    ensures !IsSafe([Some(w), None])
  {
    var snapshot := [Some(w), None];
    assert Received(snapshot) == [w] by {
      assert snapshot[1..][0].None?;
    }
    assert snapshot[1].None?;
    LoadContents([w]);
    assert w in [w] && Last([w], w.workerID) == w;
  }

  ghost predicate SafeSnapshots(actions: seq<Action>) {
    forall a :: a in actions && a.WriteSnapshot? ==> IsSafe(a.snapshot)
  }

  // Whatever happens to the table without a broadcast becoming due frees nobody.
  lemma NobodyFreed(s: Sys, a: Action, required: seq<Tag>)
    requires Coherent(s.store) && Enabled(s, a)
    requires !Next(s, a).broadcastDue && (a.WriteSnapshot? ==> IsSafe(a.snapshot))
    ensures Eligible(Next(s, a).store, required) <= Eligible(s.store, required)
  {
    match a
    case WriteHeartbeat(hb, now) => FullBeatFreesNobody(s.store, hb, now, required);
    case _ =>
  }

  lemma NextLosesNobody(s: Sys, a: Action)
    requires Inv(s) && NoneLost(s) && Enabled(s, a) && (a.WriteSnapshot? ==> IsSafe(a.snapshot))
    ensures NoneLost(Next(s, a))
  {
    forall t | t in Next(s, a).threads
      ensures !Lost(Next(s, a), t)
    {
      assert ThreadInv(s, s.threads[t]);
      if !(a.By? && a.t == t) && s.threads[t].pc.Parked? && !Next(s, a).broadcastDue {
        NobodyFreed(s, a, s.threads[t].pc.req.requiredTags);
        assert !Lost(s, t);
      }
    }
  }

  lemma {:induction false} NoneLostOverRuns(s: Sys, actions: seq<Action>)
    requires Inv(s) && NoneLost(s) && Legal(s, actions) && SafeSnapshots(actions)
    ensures NoneLost(After(s, actions))
    decreases |actions|
  {
    if actions != [] {
      assert actions[0] in actions;
      NextInv(s, actions[0]);
      NextLosesNobody(s, actions[0]);
      NoneLostOverRuns(Next(s, actions[0]), actions[1..]);
    }
  }

  // No lost wakeup: in every interleaving, a request parked on a channel nobody
  // has closed, with no broadcast due, has no worker it could be given, neither
  // by the index nor by a plain scan of the table.
  lemma NoLostWakeup(s: Sys, actions: seq<Action>, t: ThreadId)
    requires Init(s) && Legal(s, actions) && SafeSnapshots(actions) && t in After(s, actions).threads
    ensures var now := After(s, actions);
            var pc := now.threads[t].pc;
            pc.Parked? && pc.chan >= now.gen && !now.broadcastDue ==>
              && Eligible(now.store, pc.req.requiredTags) == {}
              && forall id :: id in ScanFor(now.store, pc.req.requiredTags) ==>
                   !(now.store.workers[id].status == Online && now.store.workers[id].available > 0)
  {
    InvOverRuns(s, actions);
    NoneLostOverRuns(s, actions);
    var now := After(s, actions);
    assert !Lost(now, t);
    QueriesAgreeIffExact(now.store);
    var pc := now.threads[t].pc;
    if pc.Parked? && pc.chan >= now.gen && !now.broadcastDue {
      forall id | id in ScanFor(now.store, pc.req.requiredTags)
        ensures !IsFree(now.store.workers[id])
      {
        assert id in Candidates(now.store, pc.req.requiredTags);
        assert id !in Eligible(now.store, pc.req.requiredTags);
      }
    }
  }

  // A run from an empty node in which every snapshot but this one is whole, and
  // which leaves t waiting in vain.
  ghost predicate LosesWith(snapshot: Snapshot, s: Sys, actions: seq<Action>, t: ThreadId) {
    && Init(s) && Legal(s, actions) && Lost(After(s, actions), t)
    && forall a :: a in actions && a.WriteSnapshot? ==> a.snapshot == snapshot || IsWhole(a.snapshot)
  }

  // The one thing that can lose a wakeup is a snapshot with a nil record after
  // which some loaded worker is free, and every such snapshot does.
  lemma WakeupsAreSafeIff(snapshot: Snapshot)
    ensures IsSafe(snapshot) <==> forall s, actions, t :: !LosesWith(snapshot, s, actions, t)
  {
    if IsSafe(snapshot) {
      forall s, actions, t
        ensures !LosesWith(snapshot, s, actions, t)
      {
        if LosesWith(snapshot, s, actions, t) {
          NoneLostOverRuns(s, actions);
          assert false;
        }
      }
    } else {
      var req := ScheduleRequest("t", [], 1);
      var s, actions := ParkOne(req);
      var parked := After(s, actions);
      var last := WriteSnapshot(snapshot);
      Extend(s, actions, last);
      var loaded := Load(Received(snapshot));
      var id :| id in loaded.workers && IsFree(loaded.workers[id]);
      assert id in Eligible(loaded, []);
      assert LosesWith(snapshot, s, actions + [last], 0);
    }
  }

  // One thread on an empty node, waiting.
  lemma ParkOne(req: ScheduleRequest) returns (s: Sys, actions: seq<Action>)
    requires req.Validate() && req.maxWaitMS > 0
    ensures Init(s) && Legal(s, actions)
    ensures forall a :: a in actions ==> a.By?
    ensures After(s, actions) == s.(threads := map[0 := Thread(Parked(req, 0), 0, 2, 0)])
  {
    s := Sys(EMPTY, Config(1, 1), false, 0, map[0 := Thread(Idle, 0, 0, 0)]);
    actions := [];
    Extend(s, actions, By(0, Submit(req)));
    actions := actions + [By(0, Submit(req))];
    Extend(s, actions, By(0, Read(None)));
    actions := actions + [By(0, Read(None))];
    Extend(s, actions, By(0, FetchChannel));
    actions := actions + [By(0, FetchChannel)];
    Extend(s, actions, By(0, Read(None)));
    actions := actions + [By(0, Read(None))];
  }

  // One broadcast wakes every request parked at that moment.
  lemma BroadcastWakesAll(s: Sys, actions: seq<Action>, t: ThreadId)
    requires Init(s) && Legal(s, actions) && Enabled(After(s, actions), Broadcast)
    requires t in After(s, actions).threads && After(s, actions).threads[t].pc.Parked?
    ensures Enabled(Next(After(s, actions), Broadcast), By(t, Wake))
  {
    InvOverRuns(s, actions);
    assert ThreadInv(After(s, actions), After(s, actions).threads[t]);
  }

  // ------------------------------------------------- one call of Schedule

  // How often t is woken.
  function Wakes(actions: seq<Action>, t: ThreadId): nat {
    if actions == [] then 0 else (if actions[0] == By(t, Wake) then 1 else 0) + Wakes(actions[1..], t)
  }

  lemma {:induction false} WakesAdd(a: seq<Action>, b: seq<Action>, t: ThreadId)
    ensures Wakes(a + b, t) == Wakes(a, t) + Wakes(b, t)
    decreases |a|
  {
    if a == [] {
      assert a + b == b;
    } else {
      assert (a + b)[1..] == a[1..] + b;
      WakesAdd(a[1..], b, t);
    }
  }

  function Broadcasts(actions: seq<Action>): nat {
    if actions == [] then 0 else (if actions[0].Broadcast? then 1 else 0) + Broadcasts(actions[1..])
  }

  // How often t scans the table for a worker.
  function Attempts(actions: seq<Action>, t: ThreadId): nat {
    if actions == [] then 0
    else (if actions[0].By? && actions[0].t == t && actions[0].step.Read? then 1 else 0) + Attempts(actions[1..], t)
  }

  // How often t takes a slot.
  function Slots(s: Sys, actions: seq<Action>, t: ThreadId): nat
    requires Legal(s, actions)
    decreases |actions|
  {
    if actions == [] then 0
    else
      var a := actions[0];
      (if a.By? && a.t == t && a.step.Commit? && HasRoom(s.store, s.threads[t].pc.choice) then 1 else 0)
      + Slots(Next(s, a), actions[1..], t)
  }

  predicate NoSubmit(actions: seq<Action>, t: ThreadId) {
    forall a :: a in actions && a.By? && a.t == t ==> !a.step.Submit?
  }

  lemma {:induction false} CountersCount(s: Sys, actions: seq<Action>, t: ThreadId)
    requires Legal(s, actions) && t in s.threads && NoSubmit(actions, t)
    ensures t in After(s, actions).threads
    ensures var before, now := s.threads[t], After(s, actions).threads[t];
            && now.startGen == before.startGen
            && now.attempts == before.attempts + Attempts(actions, t)
            && now.granted == before.granted + Slots(s, actions, t)
    ensures After(s, actions).gen == s.gen + Broadcasts(actions)
    decreases |actions|
  {
    if actions != [] {
      CountersCount(Next(s, actions[0]), actions[1..], t);
    }
  }

  // From its submission on, one call of Schedule scans the table at most twice
  // plus once per broadcast, takes at most one slot, and none if it is refused.
  lemma CallBounds(s: Sys, before: seq<Action>, t: ThreadId, req: ScheduleRequest, call: seq<Action>)
    requires Init(s) && Legal(s, before)
    requires Enabled(After(s, before), By(t, Submit(req)))
    requires var start := Next(After(s, before), By(t, Submit(req))); Legal(start, call) && NoSubmit(call, t)
    ensures var start := Next(After(s, before), By(t, Submit(req)));
            && Attempts(call, t) <= 2 + Broadcasts(call)
            && Slots(start, call, t) <= 1
            && t in After(start, call).threads
            && (var pc := After(start, call).threads[t].pc; pc.Done? && pc.resp.Refused? ==> Slots(start, call, t) == 0)
  {
    var start := Next(After(s, before), By(t, Submit(req)));
    InvOverRuns(s, before);
    NextInv(After(s, before), By(t, Submit(req)));
    InvOverRuns(start, call);
    CountersCount(start, call, t);
    assert ThreadInv(After(start, call), After(start, call).threads[t]);
  }

  // ------------------------------------------- what the answer of a call means

  lemma {:induction false} LegalPrefix(s: Sys, actions: seq<Action>, k: nat)
    requires Legal(s, actions) && k <= |actions|
    ensures Legal(s, actions[..k])
    decreases |actions|
  {
    if k > 0 {
      assert actions[..k][1..] == actions[1..][..k - 1];
      LegalPrefix(Next(s, actions[0]), actions[1..], k - 1);
    }
  }

  // At step k of the run from s, t reads the table and sees `seen`.
  ghost predicate ReadsAt(s: Sys, actions: seq<Action>, t: ThreadId, k: nat, pick: Option<WorkerId>, seen: Store) {
    && k < |actions| && actions[k] == By(t, Read(pick))
    && Legal(s, actions[..k]) && After(s, actions[..k]).store == seen
  }

  ghost predicate NoReadFrom(actions: seq<Action>, t: ThreadId, k: nat) {
    forall j :: k <= j < |actions| ==> !(actions[j].By? && actions[j].t == t && actions[j].step.Read?)
  }

  lemma ReadsLater(s: Sys, actions: seq<Action>, t: ThreadId, k: nat, pick: Option<WorkerId>, seen: Store)
    requires actions != [] && Legal(s, actions)
    requires ReadsAt(Next(s, actions[0]), actions[1..], t, k, pick, seen)
    ensures ReadsAt(s, actions, t, k + 1, pick, seen)
  {
    LegalPrefix(s, actions, k + 1);
    assert actions[..k + 1][1..] == actions[1..][..k];
  }

  // The request a thread in the middle of a call is serving.
  predicate IsServing(pc: Pc, req: ScheduleRequest) {
    !pc.Idle? && !pc.Done? && pc.req == req
  }

  // A thread that ends with an assignment has chosen it already, or chooses it
  // in a read still to come.
  lemma {:induction false} AssignmentIsRead(s: Sys, actions: seq<Action>, t: ThreadId, req: ScheduleRequest, id: WorkerId, address: string)
    returns (k: nat, seen: Store)
    requires Legal(s, actions) && NoSubmit(actions, t) && t in s.threads && IsServing(s.threads[t].pc, req)
    requires t in After(s, actions).threads && After(s, actions).threads[t].pc.Done?
    requires After(s, actions).threads[t].pc.resp == Assigned(id, address)
    ensures s.threads[t].pc == Allocating(req, id, address) ||
            (&& ReadsAt(s, actions, t, k, Some(id), seen)
             && id in Choices(seen, req.requiredTags) && seen.workers[id].address == address)
    decreases |actions|
  {
    k, seen := 0, s.store;
    var a := actions[0];
    var s' := Next(s, a);
    if s'.threads[t].pc.Done? {
      DoneStays(s', actions[1..], t);
    } else {
      k, seen := AssignmentIsRead(s', actions[1..], t, req, id, address);
      if s'.threads[t].pc != Allocating(req, id, address) {
        ReadsLater(s, actions, t, k, Some(id), seen);
        k := k + 1;
      } else if a.By? && a.t == t {
        k, seen := 0, s.store;
        assert actions[..0] == [];
      }
    }
  }

  lemma {:induction false} DoneStays(s: Sys, actions: seq<Action>, t: ThreadId)
    requires Legal(s, actions) && NoSubmit(actions, t) && t in s.threads && s.threads[t].pc.Done?
    ensures t in After(s, actions).threads && After(s, actions).threads[t] == s.threads[t]
    ensures NoReadFrom(actions, t, 0)
    decreases |actions|
  {
    if actions != [] {
      assert actions[0] in actions;
      DoneStays(Next(s, actions[0]), actions[1..], t);
      forall j | 0 <= j < |actions|
        ensures !(actions[j].By? && actions[j].t == t && actions[j].step.Read?)
      {
        assert j > 0 ==> actions[j] == actions[1..][j - 1];
      }
    }
  }

  // A thread that ends refused saw nobody eligible in its last read, be that
  // already done or still to come.
  lemma {:induction false} RefusalIsRead(s: Sys, actions: seq<Action>, t: ThreadId, req: ScheduleRequest)
    returns (k: nat, seen: Store)
    requires Legal(s, actions) && NoSubmit(actions, t) && t in s.threads && IsServing(s.threads[t].pc, req)
    requires t in After(s, actions).threads && After(s, actions).threads[t].pc.Done?
    requires After(s, actions).threads[t].pc.resp.Refused?
    ensures (s.threads[t].pc.Parked? && NoReadFrom(actions, t, 0)) ||
            (&& ReadsAt(s, actions, t, k, None, seen) && NoReadFrom(actions, t, k + 1)
             && Eligible(seen, req.requiredTags) == {})
    decreases |actions|
  {
    k, seen := 0, s.store;
    var a := actions[0];
    var s' := Next(s, a);
    var rest := actions[1..];
    var here := a.By? && a.t == t && a.step.Read?;
    var later := false;
    if s'.threads[t].pc.Done? {
      DoneStays(s', rest, t);
    } else {
      k, seen := RefusalIsRead(s', rest, t, req);
      later := !(s'.threads[t].pc.Parked? && NoReadFrom(rest, t, 0));
    }
    if later {
      ReadsLater(s, actions, t, k, None, seen);
      NoReadShift(actions, t, k + 1);
      k := k + 1;
    } else {
      k, seen := 0, s.store;
      NoReadShift(actions, t, 0);
      assert actions[..0] == [];
      if !here {
        assert NoReadFrom(actions, t, 0);
      }
    }
  }

  lemma NoReadShift(actions: seq<Action>, t: ThreadId, k: nat)
    requires actions != [] && NoReadFrom(actions[1..], t, k)
    ensures NoReadFrom(actions, t, k + 1)
  {
  }

  // In the read at step k of the call, `seen` accounts for resp: it holds the
  // choice made, or nobody eligible and there was no later read.
  ghost predicate Explains(s: Sys, call: seq<Action>, t: ThreadId, req: ScheduleRequest, k: nat, seen: Store, resp: ScheduleResponse) {
    match resp
    case Assigned(id, address) =>
      && ReadsAt(s, call, t, k, Some(id), seen)
      && id in Choices(seen, req.requiredTags) && seen.workers[id].address == address
    case Refused(_) =>
      && ReadsAt(s, call, t, k, None, seen) && NoReadFrom(call, t, k + 1)
      && Eligible(seen, req.requiredTags) == {}
  }

  // What the answer of one call of Schedule means. An assignment names a worker
  // that was one of the choices, under that address, when the call read the
  // table; a refusal of a valid request, a timeout or cancellation included,
  // comes after a last read in which nobody was eligible.
  lemma AnswerOverCall(s: Sys, t: ThreadId, req: ScheduleRequest, call: seq<Action>) returns (k: nat, seen: Store)
    requires Enabled(s, By(t, Submit(req))) && req.Validate()
    requires Legal(Next(s, By(t, Submit(req))), call) && NoSubmit(call, t)
    requires var end := After(Next(s, By(t, Submit(req))), call); t in end.threads && end.threads[t].pc.Done?
    ensures var start := Next(s, By(t, Submit(req)));
            Explains(start, call, t, req, k, seen, After(start, call).threads[t].pc.resp)
  {
    var start := Next(s, By(t, Submit(req)));
    match After(start, call).threads[t].pc.resp
    case Assigned(id, address) => k, seen := AssignmentIsRead(start, call, t, req, id, address);
    case Refused(_) => k, seen := RefusalIsRead(start, call, t, req);
  }

  // ------------------------------------------------- giving up the wait

  // The last step is t giving up although nobody has closed its channel.
  ghost predicate GivesUpUnwoken(s: Sys, actions: seq<Action>, t: ThreadId) {
    actions != [] &&
    (var front, last := actions[..|actions| - 1], actions[|actions| - 1];
     && (last == By(t, Expire) || last == By(t, Cancel))
     && Legal(s, front) && t in After(s, front).threads && After(s, front).threads[t].pc.Parked?
     && After(s, front).threads[t].pc.chan >= After(s, front).gen)
  }

  // Until it is done a call serves the request it was submitted with.
  lemma {:induction false} ServesOn(s: Sys, actions: seq<Action>, t: ThreadId, req: ScheduleRequest)
    requires Legal(s, actions) && NoSubmit(actions, t) && t in s.threads
    requires s.threads[t].pc.Done? || IsServing(s.threads[t].pc, req)
    ensures t in After(s, actions).threads
    ensures After(s, actions).threads[t].pc.Done? || IsServing(After(s, actions).threads[t].pc, req)
    decreases |actions|
  {
    if actions != [] {
      assert actions[0] in actions;
      ServesOn(Next(s, actions[0]), actions[1..], t, req);
    }
  }

  // A call that gives up unwoken, with no broadcast due, has missed nothing: no
  // worker in the table is Online with a free slot and all the tags.
  lemma UnwokenMeansNobody(s: Sys, before: seq<Action>, t: ThreadId, req: ScheduleRequest, call: seq<Action>)
    requires Init(s) && Legal(s, before) && Enabled(After(s, before), By(t, Submit(req)))
    requires var start := Next(After(s, before), By(t, Submit(req)));
             Legal(start, call) && NoSubmit(call, t) && GivesUpUnwoken(start, call, t)
    requires SafeSnapshots(before) && SafeSnapshots(call)
    ensures var end := After(Next(After(s, before), By(t, Submit(req))), call);
            !end.broadcastDue ==>
              && Eligible(end.store, req.requiredTags) == {}
              && forall id :: id in ScanFor(end.store, req.requiredTags) ==>
                   !(end.store.workers[id].status == Online && end.store.workers[id].available > 0)
  {
    var submit := By(t, Submit(req));
    var start := Next(After(s, before), submit);
    var front, last := call[..|call| - 1], call[|call| - 1];
    Extend(s, before, submit);
    RunsCompose(s, before + [submit], front);
    ServesOn(start, front, t, req);
    Extend(start, front, last);
    assert front + [last] == call;
    var actions := before + [submit] + front;
    assert forall a :: a in actions ==> a in before || a == submit || a in call;
    NoLostWakeup(s, actions, t);
  }

  // ------------------------------------------- where an address comes from

  // What a step does to the table, if anything.
  function WriteOf(s: Sys, a: Action): (op: Option<Op>)
    requires Enabled(s, a)
    ensures Next(s, a).store == if op.Some? then Apply(s.store, op.value, s.cfg) else s.store
    ensures Next(s, a).cfg == s.cfg
  {
    match a
    case WriteHeartbeat(hb, now) => Some(Heard(hb, now))
    case WriteSnapshot(snapshot) => Some(Loaded(Received(snapshot)))
    case ScanTimeouts(now) => Some(Scanned(now))
    case By(t, Commit) => Some(Granted(s.threads[t].pc.choice))
    case _ => None
  }

  function Writes(s: Sys, actions: seq<Action>): seq<Op>
    requires Legal(s, actions)
    decreases |actions|
  {
    if actions == [] then []
    else
      var op, later := WriteOf(s, actions[0]), Writes(Next(s, actions[0]), actions[1..]);
      if op.Some? then [op.value] + later else later
  }

  lemma RunFirst(s: Store, op: Op, ops: seq<Op>, cfg: Config)
    ensures Run(s, [op] + ops, cfg) == Run(Apply(s, op, cfg), ops, cfg)
  {
    assert ([op] + ops)[1..] == ops;
  }

  lemma {:induction false} TableIsRun(s: Sys, actions: seq<Action>)
    requires Legal(s, actions)
    ensures After(s, actions).store == Run(s.store, Writes(s, actions), s.cfg)
    decreases |actions|
  {
    if actions != [] {
      var next, op := Next(s, actions[0]), WriteOf(s, actions[0]);
      TableIsRun(next, actions[1..]);
      if op.Some? {
        RunFirst(s.store, op.value, Writes(next, actions[1..]), s.cfg);
      }
    }
  }

  // The address in the last heartbeat of id or in a snapshot.
  predicate GivesAddress(op: Op, id: WorkerId, address: string) {
    match op
    case Heard(hb, _) => hb.workerID == id && hb.address == address
    case Loaded(ws) => id in IdsOf(ws) && Last(ws, id).address == address
    case _ => false
  }

  // The address a call answers with is the one in the last news of that worker
  // before the call's read: its latest heartbeat, or a snapshot loaded since.
  lemma AddressIsReported(s: Sys, before: seq<Action>, t: ThreadId, req: ScheduleRequest, call: seq<Action>, id: WorkerId, address: string)
    returns (k: nat, history: seq<Op>)
    requires Init(s) && Legal(s, before) && Enabled(After(s, before), By(t, Submit(req))) && req.Validate()
    requires var start := Next(After(s, before), By(t, Submit(req)));
             && Legal(start, call) && NoSubmit(call, t) && t in After(start, call).threads
             && After(start, call).threads[t].pc.Done? && After(start, call).threads[t].pc.resp == Assigned(id, address)
    ensures k < |call| && call[k] == By(t, Read(Some(id)))
    ensures var past := before + [By(t, Submit(req))] + call[..k]; Legal(s, past) && history == Writes(s, past)
    ensures var last := LastNews(history, id); last.Some? && GivesAddress(history[last.value], id, address)
  {
    var submit := By(t, Submit(req));
    var start := Next(After(s, before), submit);
    var seen: Store;
    k, seen := AnswerOverCall(After(s, before), t, req, call);
    var past := before + [submit] + call[..k];
    Extend(s, before, submit);
    RunsCompose(s, before + [submit], call[..k]);
    history := Writes(s, past);
    TableIsRun(s, past);
    TableShowsLastNews(history, s.cfg, id);
  }
}
