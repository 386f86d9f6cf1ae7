// Requests with the same tags, scheduled one after the other with nothing else
// going on: the pool drains exactly, and stays balanced while it does.
module SequentialRuns {
  import opened Types
  import opened WorkerStore
  import opened Selection
  import opened Protocol

  // What one attempt may do in s: fail if nobody is eligible, else allocate on
  // one of the choices.
  predicate IsOutcome(s: Store, required: seq<Tag>, outcome: Option<WorkerId>) {
    match outcome
    case None => Eligible(s, required) == {}
    case Some(id) => id in Choices(s, required)
  }

  function Outcome(s: Store, outcome: Option<WorkerId>): Store {
    if outcome.Some? then Allocate(s, outcome.value) else s
  }

  predicate IsRun(s: Store, required: seq<Tag>, outcomes: seq<Option<WorkerId>>)
    decreases |outcomes|
  {
    outcomes == [] || (IsOutcome(s, required, outcomes[0]) && IsRun(Outcome(s, outcomes[0]), required, outcomes[1..]))
  }

  function End(s: Store, outcomes: seq<Option<WorkerId>>): Store
    decreases |outcomes|
  {
    if outcomes == [] then s else End(Outcome(s, outcomes[0]), outcomes[1..])
  }

  // ------------------------------------------------- as calls of one thread

  // The actions of thread t for one fail-fast request with this outcome.
  function Call(t: ThreadId, req: ScheduleRequest, outcome: Option<WorkerId>): seq<Action> {
    [By(t, Submit(req))] + ([By(t, Read(outcome))] + if outcome.Some? then [By(t, Commit)] else [])
  }

  function Calls(t: ThreadId, req: ScheduleRequest, outcomes: seq<Option<WorkerId>>): seq<Action> {
    if outcomes == [] then [] else Call(t, req, outcomes[0]) + Calls(t, req, outcomes[1..])
  }

  // Thread t is between calls and nobody else is doing anything.
  predicate IsAlone(s: Sys, t: ThreadId) {
    !s.broadcastDue && t in s.threads && (s.threads[t].pc.Idle? || s.threads[t].pc.Done?)
  }

  lemma CallIff(s: Sys, t: ThreadId, req: ScheduleRequest, outcome: Option<WorkerId>)
    requires IsAlone(s, t) && req.Validate() && req.maxWaitMS <= 0
    ensures Legal(s, Call(t, req, outcome)) <==> IsOutcome(s.store, req.requiredTags, outcome)
    ensures Legal(s, Call(t, req, outcome)) ==>
              var end := After(s, Call(t, req, outcome));
              IsAlone(end, t) && end.store == Outcome(s.store, outcome)
  {
    var commit := if outcome.Some? then [By(t, Commit)] else [];
    Prepend(s, By(t, Submit(req)), [By(t, Read(outcome))] + commit);
    var submitted := Next(s, By(t, Submit(req)));
    Prepend(submitted, By(t, Read(outcome)), commit);
    if Enabled(submitted, By(t, Read(outcome))) && outcome.Some? {
      Prepend(Next(submitted, By(t, Read(outcome))), By(t, Commit), []);
      assert [By(t, Commit)] + [] == [By(t, Commit)];
    }
  }

  // Sequences of outcomes are exactly the protocol runs of one thread that makes
  // fail-fast calls with nothing else going on.
  lemma {:induction false} RunsAreCalls(s: Sys, t: ThreadId, req: ScheduleRequest, outcomes: seq<Option<WorkerId>>)
    requires IsAlone(s, t) && req.Validate() && req.maxWaitMS <= 0
    ensures IsRun(s.store, req.requiredTags, outcomes) <==> Legal(s, Calls(t, req, outcomes))
    ensures Legal(s, Calls(t, req, outcomes)) ==> After(s, Calls(t, req, outcomes)).store == End(s.store, outcomes)
    decreases |outcomes|
  {
    if outcomes != [] {
      var call, rest := Call(t, req, outcomes[0]), Calls(t, req, outcomes[1..]);
      CallIff(s, t, req, outcomes[0]);
      if Legal(s, call + rest) {
        LegalPrefix(s, call + rest, |call|);
        assert (call + rest)[..|call|] == call;
      }
      if Legal(s, call) {
        RunsSplit(s, call, rest);
        RunsAreCalls(After(s, call), t, req, outcomes[1..]);
      }
    }
  }

  lemma {:induction false} RunsSplit(s: Sys, a: seq<Action>, b: seq<Action>)
    requires Legal(s, a)
    ensures Legal(s, a + b) <==> Legal(After(s, a), b)
    ensures Legal(s, a + b) ==> After(s, a + b) == After(After(s, a), b)
    decreases |a|
  {
    if a == [] {
      assert a + b == b;
    } else {
      assert a + b == [a[0]] + (a[1..] + b);
      Prepend(s, a[0], a[1..] + b);
      RunsSplit(Next(s, a[0]), a[1..], b);
    }
  }

  function Successes(outcomes: seq<Option<WorkerId>>): nat {
    if outcomes == [] then 0 else (if outcomes[0].Some? then 1 else 0) + Successes(outcomes[1..])
  }

  // ----------------------------------------------------------------- drain

  function FreeSlots(w: WorkerState): nat {
    if IsFree(w) then w.available else 0
  }

  ghost function Total(workers: Table, ids: set<WorkerId>): nat
    requires ids <= workers.Keys
    decreases ids
  {
    if ids == {} then 0
    else
      var id :| id in ids;
      FreeSlots(workers[id]) + Total(workers, ids - {id})
  }

  // The free slots of all eligible workers matching the request.
  ghost function Pool(s: Store, required: seq<Tag>): nat {
    Total(s.workers, Eligible(s, required))
  }

  lemma {:induction false} TotalSplits(workers: Table, ids: set<WorkerId>, id: WorkerId)
    requires ids <= workers.Keys && id in ids
    ensures Total(workers, ids) == FreeSlots(workers[id]) + Total(workers, ids - {id})
    decreases ids
  {
    var first :| first in ids && Total(workers, ids) == FreeSlots(workers[first]) + Total(workers, ids - {first});
    if first != id {
      TotalSplits(workers, ids - {first}, id);
      TotalSplits(workers, ids - {id}, first);
      assert ids - {first} - {id} == ids - {id} - {first};
    }
  }

  lemma {:induction false} TotalDependsOn(a: Table, b: Table, ids: set<WorkerId>)
    requires ids <= a.Keys && ids <= b.Keys
    requires forall id :: id in ids ==> FreeSlots(a[id]) == FreeSlots(b[id])
    ensures Total(a, ids) == Total(b, ids)
    decreases ids
  {
    if ids != {} {
      var id :| id in ids;
      TotalSplits(a, ids, id);
      TotalSplits(b, ids, id);
      TotalDependsOn(a, b, ids - {id});
    }
  }

  lemma PoolIsPositive(s: Store, ids: set<WorkerId>)
    requires ids <= s.workers.Keys && forall id :: id in ids ==> IsFree(s.workers[id])
    ensures Total(s.workers, ids) == 0 <==> ids == {}
  {
    if ids != {} {
      var id :| id in ids;
      TotalSplits(s.workers, ids, id);
    }
  }

  // A success takes exactly one slot out of the pool, and its allocation does
  // not fail.
  lemma SuccessTakesOne(s: Store, required: seq<Tag>, id: WorkerId)
    requires Coherent(s) && id in Choices(s, required)
    ensures HasRoom(s, id)
    ensures Coherent(Allocate(s, id))
    ensures Pool(Allocate(s, id), required) == Pool(s, required) - 1
  {
    var s' := Allocate(s, id);
    var ids, ids' := Eligible(s, required), Eligible(s', required);
    AllocateCoherent(s, id);
    assert Candidates(s', required) == Candidates(s, required);
    TotalSplits(s.workers, ids, id);
    TotalDependsOn(s.workers, s'.workers, ids - {id});
    assert ids' - {id} == ids - {id};
    if id in ids' {
      TotalSplits(s'.workers, ids', id);
    } else {
      assert ids' == ids - {id};
    }
  }

  // k attempts succeed exactly min(k, A) times, where A is the pool's size.
  lemma {:induction false} ExactDrain(s: Store, required: seq<Tag>, outcomes: seq<Option<WorkerId>>)
    requires Coherent(s) && IsRun(s, required, outcomes)
    ensures var pool := Pool(s, required);
            && Successes(outcomes) == (if |outcomes| <= pool then |outcomes| else pool)
            && Pool(End(s, outcomes), required) == pool - Successes(outcomes)
    decreases |outcomes|
  {
    if outcomes != [] {
      PoolIsPositive(s, Eligible(s, required));
      if outcomes[0].Some? {
        SuccessTakesOne(s, required, outcomes[0].value);
      }
      ExactDrain(Outcome(s, outcomes[0]), required, outcomes[1..]);
    }
  }

  // --------------------------------------------------------------- balance

  // A worker that is Online with a proper load.
  predicate Serves(w: WorkerState) {
    w.status == Online && w.maxTasks > 0 && 0 <= w.currentTasks <= w.maxTasks && w.available == w.maxTasks - w.currentTasks
  }

  // v is no further above u than the spread plus one task of v.
  predicate IsLevelWith(v: WorkerState, u: WorkerState)
    requires v.maxTasks > 0
  {
    v.LoadRatio() - u.LoadRatio() <= 1.0 / 20.0 + 1.0 / v.maxTasks as real
  }

  ghost predicate InService(s: Store, required: seq<Tag>) {
    forall id :: id in Candidates(s, required) ==> Serves(s.workers[id])
  }

  // Every matching worker is level with every other, so with the least loaded.
  ghost predicate Balanced(s: Store, required: seq<Tag>)
    requires InService(s, required)
  {
    forall v, u :: v in Candidates(s, required) && u in Candidates(s, required) ==>
      IsLevelWith(s.workers[v], s.workers[u])
  }

  lemma RatioStep(w: WorkerState)
    requires w.maxTasks > 0
    ensures OneMore(w).LoadRatio() == w.LoadRatio() + 1.0 / w.maxTasks as real
    ensures 1.0 / w.maxTasks as real > 0.0
  {
  }

  // Free means below ratio one, and a full worker is at ratio one.
  lemma RatioRange(w: WorkerState)
    requires Serves(w)
    ensures w.available > 0 ==> w.LoadRatio() < 1.0
    ensures w.available <= 0 ==> w.LoadRatio() == 1.0
  {
    RatioInRangeIff(w);
  }

  // A choice is within the spread of every matching worker, full ones included.
  lemma ChoiceIsNearAll(s: Store, required: seq<Tag>, id: WorkerId, u: WorkerId)
    requires InService(s, required) && id in Choices(s, required) && u in Candidates(s, required)
    ensures s.workers[id].LoadRatio() - s.workers[u].LoadRatio() <= SPREAD_THRESHOLD
  {
    RatioRange(s.workers[id]);
    RatioRange(s.workers[u]);
    if s.workers[u].available > 0 {
      assert u in Eligible(s, required);
    }
  }

  lemma StaysBalanced(s: Store, required: seq<Tag>, id: WorkerId)
    requires Coherent(s) && InService(s, required) && Balanced(s, required)
    requires id in Choices(s, required)
    ensures Coherent(Allocate(s, id)) && Candidates(Allocate(s, id), required) == Candidates(s, required)
    ensures InService(Allocate(s, id), required) && Balanced(Allocate(s, id), required)
  {
    var s' := Allocate(s, id);
    AllocateCoherent(s, id);
    RatioStep(s.workers[id]);
    forall v, u | v in Candidates(s', required) && u in Candidates(s', required)
      ensures IsLevelWith(s'.workers[v], s'.workers[u])
    {
      ChoiceIsNearAll(s, required, id, u);
      assert u == id ==> s.workers[u].LoadRatio() <= s'.workers[u].LoadRatio();
    }
  }

  // Load balance over whole runs, also after workers fill up.
  lemma {:induction false} BalancedOverRuns(s: Store, required: seq<Tag>, outcomes: seq<Option<WorkerId>>)
    requires Coherent(s) && InService(s, required) && Balanced(s, required)
    requires IsRun(s, required, outcomes)
    ensures Candidates(End(s, outcomes), required) == Candidates(s, required)
    ensures InService(End(s, outcomes), required) && Balanced(End(s, outcomes), required)
    decreases |outcomes|
  {
    if outcomes != [] {
      if outcomes[0].Some? {
        StaysBalanced(s, required, outcomes[0].value);
      }
      BalancedOverRuns(Outcome(s, outcomes[0]), required, outcomes[1..]);
    }
  }
}
