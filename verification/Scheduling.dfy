// Schedule as the code runs it, against a state manager other goroutines use at
// the same time. Every execution is shown to be a run of the interleaving
// protocol, so the protocol's theorems speak about this code.
module Scheduling {
  import opened Types
  import opened WorkerStore
  import opened State
  import opened Selection
  import opened WaitQueue
  import opened Protocol

  const MAX_SCHEDULE_WAIT_MS := 60000
  const NANOS_PER_MS := 1_000_000

  // The duration the deadline timer is armed with, computed in 64 bits.
  function TimerNanos(maxWaitMS: int): int {
    Wrap64((if maxWaitMS > MAX_SCHEDULE_WAIT_MS then MAX_SCHEDULE_WAIT_MS else maxWaitMS) * NANOS_PER_MS)
  }

  // Thanks to the clamp the timer is exact for every positive wait.
  lemma TimerIsExact(maxWaitMS: int)
    requires maxWaitMS > 0
    ensures TimerNanos(maxWaitMS) == 1_000_000 * (if maxWaitMS <= 60000 then maxWaitMS else 60000)
    ensures 0 < TimerNanos(maxWaitMS) <= 60_000_000_000
  {
  }

  // The actions lead from s to end; in them `me` submits no new request and is
  // woken this often.
  ghost predicate Leads(s: Sys, actions: seq<Action>, end: Sys, me: ThreadId, wakes: nat) {
    Legal(s, actions) && NoSubmit(actions, me) && After(s, actions) == end && Wakes(actions, me) == wakes
  }

  lemma Chain(s: Sys, a: seq<Action>, mid: Sys, i: nat, b: seq<Action>, end: Sys, j: nat, me: ThreadId)
    requires Leads(s, a, mid, me, i) && Leads(mid, b, end, me, j)
    ensures Leads(s, a + b, end, me, i + j)
  {
    RunsCompose(s, a, b);
    WakesAdd(a, b, me);
  }

  // A run that ends unwoken does so after any other run.
  lemma ChainUnwoken(s: Sys, a: seq<Action>, mid: Sys, i: nat, b: seq<Action>, me: ThreadId)
    requires Leads(s, a, mid, me, i) && GivesUpUnwoken(mid, b, me)
    ensures GivesUpUnwoken(s, a + b, me)
  {
    var front := b[..|b| - 1];
    RunsCompose(s, a, front);
    assert (a + b)[..|a + b| - 1] == a + front;
  }

  lemma OneMoreRound(s: Sys, a: seq<Action>, mid: Sys, i: nat, b: seq<Action>, end: Sys, j: nat, me: ThreadId)
    requires Leads(s, a, mid, me, i) && Leads(mid, b, end, me, j)
    ensures Leads(s, a + b, end, me, i + j) && Wakes(a + b, me) == i + j
    ensures GivesUpUnwoken(mid, b, me) ==> GivesUpUnwoken(s, a + b, me)
  {
    Chain(s, a, mid, i, b, end, j, me);
    if GivesUpUnwoken(mid, b, me) {
      ChainUnwoken(s, a, mid, i, b, me);
    }
  }

  // A run with at most this many wakeups, which ends with a refusal only after
  // all of them or on a channel still open.
  ghost predicate TakesWakeups(s: Sys, actions: seq<Action>, end: Sys, me: ThreadId, wakeups: nat, refused: bool) {
    && Leads(s, actions, end, me, Wakes(actions, me)) && Wakes(actions, me) <= wakeups
    && (refused ==> Wakes(actions, me) == wakeups || GivesUpUnwoken(s, actions, me))
  }

  lemma WaitAfterAttempt(s: Sys, a: seq<Action>, mid: Sys, b: seq<Action>, end: Sys, me: ThreadId, wakeups: nat, refused: bool)
    requires Leads(s, a, mid, me, 0) && TakesWakeups(mid, b, end, me, wakeups, refused)
    ensures TakesWakeups(s, a + b, end, me, wakeups, refused)
  {
    OneMoreRound(s, a, mid, 0, b, end, Wakes(b, me), me);
  }

  // The run of a single step by `me`.
  lemma Single(s: Sys, me: ThreadId, step: Step)
    requires Enabled(s, By(me, step)) && !step.Submit?
    ensures Leads(s, [By(me, step)], Next(s, By(me, step)), me, if step.Wake? then 1 else 0)
  {
  }

  predicate OthersOnly(actions: seq<Action>, me: ThreadId) {
    forall a :: a in actions ==> !(a.By? && a.t == me)
  }

  lemma {:induction false} OthersLeaveMe(s: Sys, actions: seq<Action>, me: ThreadId)
    requires Legal(s, actions) && me in s.threads && OthersOnly(actions, me)
    ensures me in After(s, actions).threads && After(s, actions).threads[me] == s.threads[me]
    decreases |actions|
  {
    if actions != [] {
      OthersLeaveMe(Next(s, actions[0]), actions[1..], me);
    }
  }

  // resp answers req truthfully as of the table in s: an error exactly when
  // nobody is eligible, else a choice with its address.
  ghost predicate IsAnswer(s: Store, req: ScheduleRequest, resp: ScheduleResponse) {
    match resp
    case Refused(reason) => reason == NoWorker && Eligible(s, req.requiredTags) == {}
    case Assigned(id, address) => id in Choices(s, req.requiredTags) && address == s.workers[id].address
  }

  // trace is one attempt of thread `me`: others act, `me` reads the table it
  // finds in atRead, and resp answers req as of that table.
  ghost predicate IsAttempt(s: Sys, trace: seq<Action>, me: ThreadId, before: seq<Action>, atRead: Sys,
                            req: ScheduleRequest, resp: ScheduleResponse)
  {
    && OthersOnly(before, me) && Leads(s, before, atRead, me, 0)
    && |before| < |trace| && trace[..|before|] == before
    && trace[|before|] == By(me, Read(if resp.Assigned? then Some(resp.workerID) else None))
    && IsAnswer(atRead.store, req, resp)
  }

  // Going on after the read does not change what was read.
  lemma AttemptGoesOn(s: Sys, trace: seq<Action>, mid: Sys, more: seq<Action>, end: Sys, me: ThreadId,
                      before: seq<Action>, atRead: Sys, req: ScheduleRequest, resp: ScheduleResponse)
    requires Leads(s, trace, mid, me, 0) && Leads(mid, more, end, me, 0)
    requires IsAttempt(s, trace, me, before, atRead, req, resp)
    ensures Leads(s, trace + more, end, me, 0)
    ensures IsAttempt(s, trace + more, me, before, atRead, req, resp)
  {
    Chain(s, trace, mid, 0, more, end, 0, me);
    assert (trace + more)[..|before|] == trace[..|before|];
  }

  // Thread `me` has finished with this response.
  predicate Answered(s: Sys, me: ThreadId, resp: ScheduleResponse) {
    me in s.threads && s.threads[me].pc.Done? && s.threads[me].pc.resp == resp
  }

  predicate HasTags(w: WorkerState, required: seq<Tag>) {
    forall t :: t in required ==> t in w.resourceTags
  }

  // Read off the table itself: an error means that no worker was Online with a
  // free slot and all the tags; an assignment names one that was, with its
  // address, and no other such worker was less loaded by more than 1/20.
  lemma AnswerIsSoundAndComplete(s: Store, req: ScheduleRequest, resp: ScheduleResponse)
    requires Exact(s) && IsAnswer(s, req, resp)
    ensures resp.Refused? <==>
              forall id :: id in s.workers && HasTags(s.workers[id], req.requiredTags) ==>
                !(s.workers[id].status == Online && s.workers[id].available > 0)
    ensures resp.Assigned? ==>
              && resp.workerID in s.workers
              && var w := s.workers[resp.workerID];
                 && w.workerID == resp.workerID && w.address == resp.address
                 && HasTags(w, req.requiredTags) && w.status == Online && w.available > 0
                 && forall id :: id in s.workers && HasTags(s.workers[id], req.requiredTags)
                                 && s.workers[id].status == Online && s.workers[id].available > 0 ==>
                      20.0 * (w.LoadRatio() - s.workers[id].LoadRatio()) <= 1.0
  {
    QueriesAgreeIffExact(s);
    assert Candidates(s, req.requiredTags) == ScanFor(s, req.requiredTags);
    assert forall id :: id in s.workers && HasTags(s.workers[id], req.requiredTags) <==> id in ScanFor(s, req.requiredTags);
    assert forall id :: id in Eligible(s, req.requiredTags) <==> id in ScanFor(s, req.requiredTags) && IsFree(s.workers[id]);
  }

  class Scheduler {
    const state: StateManager

    constructor (state: StateManager)
      ensures this.state == state
    {
      this.state := state;
    }

    // The heap holds what the protocol state s says it does.
    ghost predicate Mirrors(s: Sys)
      requires state.capacity.armed != []
      reads state, state.tags, state.capacity
    {
      s.store == state.Contents() && s.gen == state.capacity.Generation() && s.cfg == state.cfg
    }

    // Other goroutines run for a while: any legal burst of their actions may
    // have happened when this returns, since callers know no more than its
    // contract. `due` says whether a writer is between its update and its
    // broadcast; waiting for the table lock waits for that broadcast.
    method Preempt(me: ThreadId, ghost s: Sys, due: bool, forLock: bool)
      returns (stillDue: bool, ghost burst: seq<Action>, ghost end: Sys)
      requires state.Valid() && Mirrors(s) && due == s.broadcastDue && me in s.threads
      modifies state.Repr()
      ensures state.Valid() && fresh(state.Repr() - old(state.Repr()))
      ensures old(state.capacity.armed) <= state.capacity.armed
      ensures Leads(s, burst, end, me, 0) && OthersOnly(burst, me) && Mirrors(end)
      ensures me in end.threads && end.threads[me] == s.threads[me]
      ensures stillDue == end.broadcastDue
      ensures forLock ==> !stillDue
    {
      burst, end, stillDue := [], s, due;
      if forLock && due {
        state.capacity.Broadcast();
        burst, end, stillDue := [Broadcast], Next(s, Broadcast), false;
        assert burst[1..] == [];
      }
      OthersLeaveMe(s, burst, me);
    }

    // Reads the candidates in one critical section, then filters and selects on
    // the copies. The branch for a failed selection cannot be taken: a nonempty
    // list always has a best worker.
    method FindWorker(req: ScheduleRequest) returns (best: Option<WorkerState>)
      requires state.Valid()
      ensures best.None? <==> Eligible(state.Contents(), req.requiredTags) == {}
      ensures best.Some? ==>
                && best.value.workerID in Choices(state.Contents(), req.requiredTags)
                && best.value == state.workers[best.value.workerID]
    {
      var candidates := state.CandidatesByTags(req.requiredTags);
      var available := FilterAvailable(candidates);
      ChoicesFromListing(state.Contents(), req.requiredTags, candidates);
      if |available| == 0 {
        return None;
      }
      var slice := new WorkerState[|available|](i requires 0 <= i < |available| => available[i]);
      assert slice[..] == available;
      var pickIndex := RandIntn();
      best := SelectBestWorker(slice, pickIndex);
    }

    // The read half of an attempt: what it answers is settled here.
    method Look(me: ThreadId, ghost s: Sys, due: bool, req: ScheduleRequest)
      returns (resp: ScheduleResponse, ghost trace: seq<Action>, ghost end: Sys, ghost before: seq<Action>, ghost atRead: Sys)
      requires state.Valid() && Mirrors(s) && due == s.broadcastDue
      requires me in s.threads && (s.threads[me].pc.FirstAttempt? || s.threads[me].pc.Holding?)
      requires s.threads[me].pc.req == req
      modifies state.Repr()
      ensures state.Valid() && fresh(state.Repr() - old(state.Repr()))
      ensures old(state.capacity.armed) <= state.capacity.armed
      ensures Leads(s, trace, end, me, 0) && Mirrors(end) && !end.broadcastDue
      ensures IsAttempt(s, trace, me, before, atRead, req, resp)
      ensures me in end.threads
      ensures resp.Assigned? ==> end.threads[me].pc == Allocating(req, resp.workerID, resp.address)
      ensures resp.Refused? ==> end.threads[me] == Unserved(s.threads[me], end.gen)
    {
      var lockFree;
      lockFree, before, atRead := Preempt(me, s, due, true);
      var best := FindWorker(req);
      ghost var read := Read(if best.None? then None else Some(best.value.workerID));
      end := Next(atRead, By(me, read));
      Single(atRead, me, read);
      Chain(s, before, atRead, 0, [By(me, read)], end, 0, me);
      trace := before + [By(me, read)];
      resp := if best.None? then Refused(NoWorker) else Assigned(best.value.workerID, best.value.address);
    }

    // One non-blocking attempt of thread `me`. It fails if and only if nobody is
    // eligible in the table it read, and otherwise answers with one of the
    // choices in that table, whatever happens before the slot is taken.
    method ScheduleOnce(me: ThreadId, ghost s: Sys, due: bool, req: ScheduleRequest)
      returns (resp: ScheduleResponse, ghost trace: seq<Action>, ghost end: Sys, ghost before: seq<Action>, ghost atRead: Sys)
      requires state.Valid() && Mirrors(s) && due == s.broadcastDue
      requires me in s.threads && (s.threads[me].pc.FirstAttempt? || s.threads[me].pc.Holding?)
      requires s.threads[me].pc.req == req
      modifies state.Repr()
      ensures state.Valid() && fresh(state.Repr() - old(state.Repr()))
      ensures old(state.capacity.armed) <= state.capacity.armed
      ensures Leads(s, trace, end, me, 0) && Mirrors(end) && !end.broadcastDue
      ensures IsAttempt(s, trace, me, before, atRead, req, resp)
      ensures resp.Assigned? ==> Answered(end, me, resp)
      ensures resp.Refused? ==> me in end.threads && end.threads[me] == Unserved(s.threads[me], end.gen)
    {
      resp, trace, end, before, atRead := Look(me, s, due, req);
      if resp.Assigned? {
        trace, end := TakeChosen(me, s, trace, end, before, atRead, req, resp);
      }
    }

    // The write half of an attempt that has chosen a worker.
    method TakeChosen(me: ThreadId, ghost s: Sys, ghost looked: seq<Action>, ghost mid: Sys,
                      ghost before: seq<Action>, ghost atRead: Sys, ghost req: ScheduleRequest, resp: ScheduleResponse)
      returns (ghost trace: seq<Action>, ghost end: Sys)
      requires state.Valid() && Mirrors(mid) && !mid.broadcastDue
      requires Leads(s, looked, mid, me, 0) && IsAttempt(s, looked, me, before, atRead, req, resp)
      requires resp.Assigned? && me in mid.threads
      requires mid.threads[me].pc == Allocating(req, resp.workerID, resp.address)
      modifies state.Repr()
      ensures state.Valid() && fresh(state.Repr() - old(state.Repr()))
      ensures old(state.capacity.armed) <= state.capacity.armed
      ensures Leads(s, trace, end, me, 0) && Mirrors(end) && !end.broadcastDue
      ensures IsAttempt(s, trace, me, before, atRead, req, resp)
      ensures Answered(end, me, resp)
    {
      ghost var taking;
      taking, end := TakeSlot(me, mid, resp.workerID, resp.address);
      AttemptGoesOn(s, looked, mid, taking, end, me, before, atRead, req, resp);
      trace := looked + taking;
    }

    // The optimistic allocation; its failure is ignored.
    method TakeSlot(me: ThreadId, ghost s: Sys, id: WorkerId, ghost address: string)
      returns (ghost trace: seq<Action>, ghost end: Sys)
      requires state.Valid() && Mirrors(s) && !s.broadcastDue
      requires me in s.threads && s.threads[me].pc.Allocating?
      requires s.threads[me].pc.choice == id && s.threads[me].pc.address == address
      modifies state.Repr()
      ensures state.Valid() && fresh(state.Repr() - old(state.Repr()))
      ensures old(state.capacity.armed) <= state.capacity.armed
      ensures Leads(s, trace, end, me, 0) && Mirrors(end) && !end.broadcastDue
      ensures Answered(end, me, Assigned(id, address))
    {
      var lockFree;
      ghost var mid;
      lockFree, trace, mid := Preempt(me, s, false, true);
      var ok := state.AllocateTask(id);
      end := Next(mid, By(me, Commit));
      Single(mid, me, Commit);
      Chain(s, trace, mid, 0, [By(me, Commit)], end, 0, me);
      trace := trace + [By(me, Commit)];
    }

    // A call of Schedule by thread `me`. The select takes its wakeup branch at
    // most `wakeups` times, whenever it can; then one of the other two branches
    // ends the wait, the cancellation if `canceled`, else the deadline. Every
    // call is a run of the protocol in which `me` submits req and ends with
    // exactly this response. It gives up only after all its wakeups, or on a
    // channel still open.
    method Schedule(me: ThreadId, ghost s: Sys, due: bool, req: ScheduleRequest, wakeups: nat, canceled: bool)
      returns (resp: ScheduleResponse, deadline: Option<Time>, ghost call: seq<Action>, ghost end: Sys)
      requires state.Valid() && Mirrors(s) && due == s.broadcastDue
      requires me in s.threads && Enabled(s, By(me, Submit(req)))
      modifies state.Repr()
      ensures state.Valid() && fresh(state.Repr() - old(state.Repr()))
      ensures Leads(Next(s, By(me, Submit(req))), call, end, me, Wakes(call, me)) && Mirrors(end)
      ensures Answered(end, me, resp)
      ensures resp == Refused(InvalidRequest) <==> req.taskID == ""
      ensures resp == Refused(NoWorker) ==> req.maxWaitMS <= 0
      ensures resp == Refused(TimedOut) ==> deadline.Some? && !canceled
      ensures resp == Refused(Canceled) ==> deadline.Some? && canceled
      ensures deadline.Some? ==>
                req.maxWaitMS > 0 &&
                deadline.value == 1_000_000 * (if req.maxWaitMS <= 60000 then req.maxWaitMS else 60000)
      ensures Wakes(call, me) <= wakeups
      ensures resp in {Refused(TimedOut), Refused(Canceled)} ==>
                Wakes(call, me) == wakeups || GivesUpUnwoken(Next(s, By(me, Submit(req))), call, me)
    {
      ghost var start := Next(s, By(me, Submit(req)));
      if !req.Validate() {
        return Refused(InvalidRequest), None, [], start;
      }
      ghost var before, atRead;
      resp, call, end, before, atRead := ScheduleOnce(me, start, due, req);
      if resp.Assigned? || req.maxWaitMS <= 0 {
        return resp, None, call, end;
      }
      TimerIsExact(req.maxWaitMS);
      deadline := Some(TimerNanos(req.maxWaitMS));
      ghost var mid := end;
      ghost var wait;
      resp, wait, end := WaitForCapacity(me, mid, req, wakeups, canceled);
      WaitAfterAttempt(start, call, mid, wait, end, me, wakeups, resp.Refused?);
      call := call + wait;
    }

    // The retry loop.
    method WaitForCapacity(me: ThreadId, ghost s: Sys, req: ScheduleRequest, wakeups: nat, canceled: bool)
      returns (resp: ScheduleResponse, ghost trace: seq<Action>, ghost end: Sys)
      requires state.Valid() && Mirrors(s) && !s.broadcastDue
      requires me in s.threads && s.threads[me].pc == Arming(req)
      modifies state.Repr()
      ensures state.Valid() && fresh(state.Repr() - old(state.Repr()))
      ensures Mirrors(end) && Answered(end, me, resp)
      ensures resp.Refused? ==> resp.reason == if canceled then Canceled else TimedOut
      ensures TakesWakeups(s, trace, end, me, wakeups, resp.Refused?)
    {
      trace, end := [], s;
      var left, due := wakeups, false;
      ghost var taken: nat := 0;
      while true
        invariant taken + left == wakeups
        invariant state.Valid() && fresh(state.Repr() - old(state.Repr()))
        invariant Leads(s, trace, end, me, taken) && Mirrors(end) && due == end.broadcastDue
        invariant me in end.threads && end.threads[me].pc == Arming(req)
        decreases left
      {
        var woken;
        ghost var mid := end;
        ghost var round;
        resp, woken, due, round, end := Retry(me, mid, due, req, left > 0, canceled);
        OneMoreRound(s, trace, mid, taken, round, end, if woken then 1 else 0, me);
        trace := trace + round;
        if !woken {
          return;
        }
        left, taken := left - 1, taken + 1;
      }
    }

    // One round of the loop: fetch the channel first, then retry, then (if that
    // failed) take a ready branch of the select.
    method Retry(me: ThreadId, ghost s: Sys, due: bool, req: ScheduleRequest, mayWake: bool, canceled: bool)
      returns (resp: ScheduleResponse, woken: bool, stillDue: bool, ghost trace: seq<Action>, ghost end: Sys)
      requires state.Valid() && Mirrors(s) && due == s.broadcastDue
      requires me in s.threads && s.threads[me].pc == Arming(req)
      modifies state.Repr()
      ensures state.Valid() && fresh(state.Repr() - old(state.Repr()))
      ensures Leads(s, trace, end, me, if woken then 1 else 0) && Mirrors(end) && stillDue == end.broadcastDue
      ensures woken ==> mayWake && me in end.threads && end.threads[me].pc == Arming(req)
      ensures !woken ==> Answered(end, me, resp) && (resp.Refused? ==> resp.reason == if canceled then Canceled else TimedOut)
      ensures !woken && resp.Refused? && mayWake ==> GivesUpUnwoken(s, trace, me)
    {
      var changed;
      resp, changed, trace, end := AttemptOnFreshChannel(me, s, due, req);
      woken, stillDue := false, false;
      if resp.Refused? {
        ghost var mid := end;
        ghost var wait;
        resp, woken, stillDue, wait, end := Select(me, mid, changed, mayWake, canceled);
        OneMoreRound(s, trace, mid, 0, wait, end, if woken then 1 else 0, me);
        trace := trace + wait;
      }
    }

    method AttemptOnFreshChannel(me: ThreadId, ghost s: Sys, due: bool, req: ScheduleRequest)
      returns (resp: ScheduleResponse, changed: Channel, ghost trace: seq<Action>, ghost end: Sys)
      requires state.Valid() && Mirrors(s) && due == s.broadcastDue
      requires me in s.threads && s.threads[me].pc == Arming(req)
      modifies state.Repr()
      ensures state.Valid() && fresh(state.Repr() - old(state.Repr()))
      ensures Leads(s, trace, end, me, 0) && Mirrors(end) && !end.broadcastDue
      ensures resp.Assigned? ==> Answered(end, me, resp)
      ensures resp.Refused? ==> me in end.threads && IsParked(end.threads[me].pc, req, changed)
    {
      var stillDue;
      ghost var mid;
      changed, stillDue, trace, mid := FetchChannelFirst(me, s, due, req);
      ghost var attempt, before, atRead;
      resp, attempt, end, before, atRead := ScheduleOnce(me, mid, stillDue, req);
      Chain(s, trace, mid, 0, attempt, end, 0, me);
      trace := trace + attempt;
    }

    method FetchChannelFirst(me: ThreadId, ghost s: Sys, due: bool, ghost req: ScheduleRequest)
      returns (changed: Channel, stillDue: bool, ghost trace: seq<Action>, ghost end: Sys)
      requires state.Valid() && Mirrors(s) && due == s.broadcastDue
      requires me in s.threads && s.threads[me].pc == Arming(req)
      modifies state.Repr()
      ensures state.Valid() && fresh(state.Repr() - old(state.Repr()))
      ensures Leads(s, trace, end, me, 0) && Mirrors(end) && stillDue == end.broadcastDue
      ensures me in end.threads && IsHolding(end.threads[me].pc, req, changed)
    {
      ghost var mid;
      stillDue, trace, mid := Preempt(me, s, due, false);
      changed := state.CapacityChanged();
      end := Next(mid, By(me, FetchChannel));
      Single(mid, me, FetchChannel);
      Chain(s, trace, mid, 0, [By(me, FetchChannel)], end, 0, me);
      trace := trace + [By(me, FetchChannel)];
    }

    // `changed` is the channel the protocol thread holds.
    ghost predicate IsHolding(pc: Pc, req: ScheduleRequest, changed: Channel)
      reads state.capacity
    {
      pc.Holding? && pc.req == req && pc.chan < |state.capacity.armed| && state.capacity.armed[pc.chan] == changed
    }

    ghost predicate IsParked(pc: Pc, req: ScheduleRequest, changed: Channel)
      reads state.capacity
    {
      pc.Parked? && pc.req == req && pc.chan < |state.capacity.armed| && state.capacity.armed[pc.chan] == changed
    }

    // The select: others run, then a ready branch is taken. If it may wake it
    // gives up only on a channel still open.
    method Select(me: ThreadId, ghost s: Sys, changed: Channel, mayWake: bool, canceled: bool)
      returns (resp: ScheduleResponse, woken: bool, stillDue: bool, ghost trace: seq<Action>, ghost end: Sys)
      requires state.Valid() && Mirrors(s) && !s.broadcastDue
      requires me in s.threads && s.threads[me].pc.Parked? && IsParked(s.threads[me].pc, s.threads[me].pc.req, changed)
      modifies state.Repr()
      ensures state.Valid() && fresh(state.Repr() - old(state.Repr()))
      ensures Leads(s, trace, end, me, if woken then 1 else 0) && Mirrors(end) && stillDue == end.broadcastDue
      ensures woken <==> mayWake && changed.closed
      ensures woken ==> me in end.threads && end.threads[me].pc == Arming(s.threads[me].pc.req)
      ensures !woken ==> Answered(end, me, resp) && resp == Refused(if canceled then Canceled else TimedOut)
      ensures !woken && mayWake ==> GivesUpUnwoken(s, trace, me)
    {
      ghost var mid;
      stillDue, trace, mid := Preempt(me, s, false, false);
      ghost var step;
      woken := mayWake && changed.closed;
      if woken {
        step, resp := Wake, Refused(NoWorker);
      } else if canceled {
        step, resp := Cancel, Refused(Canceled);
      } else {
        step, resp := Expire, Refused(TimedOut);
      }
      end := Next(mid, By(me, step));
      Single(mid, me, step);
      Chain(s, trace, mid, 0, [By(me, step)], end, if woken then 1 else 0, me);
      ghost var burst := trace;
      trace := burst + [By(me, step)];
      assert trace[..|trace| - 1] == burst;
    }

    // -------------------------------------- what the other goroutines do

    // A heartbeat, a snapshot load and a scan are each the protocol's actions for
    // it, up to and including the broadcast made under the same lock.
    method Heartbeat(ghost s: Sys, hb: Heartbeat, now: Time) returns (ghost actions: seq<Action>)
      requires state.Valid() && Mirrors(s) && !s.broadcastDue
      modifies state.Repr()
      ensures state.Valid() && fresh(state.Repr() - old(state.Repr()))
      ensures actions == [WriteHeartbeat(hb, now)] + if hb.maxTasks - hb.currentTasks > 0 then [Broadcast] else []
      ensures Legal(s, actions) && Mirrors(After(s, actions)) && !After(s, actions).broadcastDue
    {
      state.UpdateFromHeartbeat(hb, now);
      actions := WithBroadcast(s, WriteHeartbeat(hb, now));
    }

    method Sync(ghost s: Sys, snapshot: Snapshot) returns (panicked: bool, ghost actions: seq<Action>)
      requires state.Valid() && Mirrors(s) && !s.broadcastDue
      modifies state.Repr()
      ensures state.Valid() && fresh(state.Repr() - old(state.Repr()))
      ensures panicked <==> !IsWhole(snapshot)
      ensures actions == [WriteSnapshot(snapshot)] + if panicked then [] else [Broadcast]
      ensures Legal(s, actions) && Mirrors(After(s, actions)) && !After(s, actions).broadcastDue
    {
      panicked := state.LoadSnapshot(snapshot);
      actions := WithBroadcast(s, WriteSnapshot(snapshot));
    }

    method Scan(ghost s: Sys, now: Time) returns (ghost actions: seq<Action>)
      requires state.Valid() && Mirrors(s) && !s.broadcastDue
      modifies state`workers
      ensures state.Valid()
      ensures actions == [ScanTimeouts(now)]
      ensures Legal(s, actions) && Mirrors(After(s, actions)) && !After(s, actions).broadcastDue
    {
      state.CheckTimeouts(now);
      actions := WithBroadcast(s, ScanTimeouts(now));
    }
  }

  // A write and the broadcast it makes due.
  lemma WithBroadcast(s: Sys, write: Action) returns (actions: seq<Action>)
    requires !s.broadcastDue && Enabled(s, write) && !write.By?
    ensures actions == [write] + if Next(s, write).broadcastDue then [Broadcast] else []
    ensures Legal(s, actions)
    ensures var mid := Next(s, write);
            After(s, actions) == if mid.broadcastDue then Next(mid, Broadcast) else mid
  {
    var mid := Next(s, write);
    var rest := if mid.broadcastDue then [Broadcast] else [];
    Prepend(s, write, rest);
    if mid.broadcastDue {
      Prepend(mid, Broadcast, []);
      assert [Broadcast] + [] == [Broadcast];
    }
    actions := [write] + rest;
  }
}
