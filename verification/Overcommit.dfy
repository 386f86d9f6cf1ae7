// How far concurrent requests can overcommit one worker between two resets of
// its record: a reset is its own heartbeat or a snapshot load.
module Overcommit {
  import opened Types
  import opened WorkerStore
  import opened Selection
  import opened Protocol

  predicate IsReset(a: Action, w: WorkerId) {
    (a.WriteHeartbeat? && a.hb.workerID == w) || a.WriteSnapshot?
  }

  function Capacity(s: Sys, w: WorkerId): int {
    if w in s.store.workers then s.store.workers[w].available else 0
  }

  // a commits a response that names w.
  predicate Names(s: Sys, a: Action, w: WorkerId) {
    a.By? && a.step.Commit? && a.t in s.threads && s.threads[a.t].pc.Allocating? && s.threads[a.t].pc.choice == w
  }

  // Responses naming w whose allocation succeeded, and those whose failed.
  function Grants(s: Sys, actions: seq<Action>, w: WorkerId): nat
    requires Legal(s, actions)
    decreases |actions|
  {
    if actions == [] then 0
    else (if Names(s, actions[0], w) && HasRoom(s.store, w) then 1 else 0)
         + Grants(Next(s, actions[0]), actions[1..], w)
  }

  function Misses(s: Sys, actions: seq<Action>, w: WorkerId): nat
    requires Legal(s, actions)
    decreases |actions|
  {
    if actions == [] then 0
    else (if Names(s, actions[0], w) && !HasRoom(s.store, w) then 1 else 0)
         + Misses(Next(s, actions[0]), actions[1..], w)
  }

  // Requests that have chosen w and not yet committed.
  function InFlight(s: Sys, w: WorkerId): set<ThreadId> {
    set t | t in s.threads && s.threads[t].pc.Allocating? && s.threads[t].pc.choice == w
  }

  lemma SubsetSize<T>(a: set<T>, b: set<T>)
    requires a <= b
    ensures |a| <= |b|
  {
    assert b == a + (b - a);
  }

  // Unless w is reset, only a successful allocation changes its capacity, and
  // nobody chooses it without capacity.
  lemma StepEffect(s: Sys, a: Action, w: WorkerId)
    requires Enabled(s, a) && !IsReset(a, w)
    ensures Next(s, a).threads.Keys == s.threads.Keys
    ensures Capacity(Next(s, a), w) == Capacity(s, w) - if Names(s, a, w) && HasRoom(s.store, w) then 1 else 0
    ensures Names(s, a, w) ==> a.t in InFlight(s, w) && InFlight(Next(s, a), w) == InFlight(s, w) - {a.t}
    ensures Capacity(s, w) <= 0 && !Names(s, a, w) ==> InFlight(Next(s, a), w) <= InFlight(s, w)
  {
  }

  // Successful allocations use up exactly the capacity there was.
  lemma {:induction false} GrantBound(s: Sys, actions: seq<Action>, w: WorkerId)
    requires Legal(s, actions) && forall a :: a in actions ==> !IsReset(a, w)
    ensures Capacity(After(s, actions), w) == Capacity(s, w) - Grants(s, actions, w)
    ensures Grants(s, actions, w) <= if Capacity(s, w) > 0 then Capacity(s, w) else 0
    decreases |actions|
  {
    if actions != [] {
      StepEffect(s, actions[0], w);
      GrantBound(Next(s, actions[0]), actions[1..], w);
    }
  }

  // Without capacity only requests already in flight can still miss; with
  // capacity, whoever takes the last slot is no longer among them.
  lemma {:induction false} MissBound(s: Sys, actions: seq<Action>, w: WorkerId)
    requires Legal(s, actions) && s.threads != map[]
    requires forall a :: a in actions ==> !IsReset(a, w)
    ensures Misses(s, actions, w) <= if Capacity(s, w) > 0 then |s.threads| - 1 else |InFlight(s, w)|
    decreases |actions|
  {
    if actions != [] {
      var a := actions[0];
      var s' := Next(s, a);
      StepEffect(s, a, w);
      assert |s'.threads.Keys| == |s.threads.Keys|;
      MissBound(s', actions[1..], w);
      if Names(s, a, w) {
        assert |InFlight(s, w)| == |InFlight(s', w)| + 1;
        SubsetSize(InFlight(s, w), s.threads.Keys);
      } else if Capacity(s, w) <= 0 {
        SubsetSize(InFlight(s', w), InFlight(s, w));
      }
    }
  }

  // Between two consecutive resets of w, at most max(0, Available at the reset)
  // responses naming w hold a slot, and at most N without one, at most N - 1 if
  // the reset left capacity, where N requests are in flight at once.
  lemma OvercommitBound(s: Sys, reset: Action, actions: seq<Action>, w: WorkerId)
    requires s.threads != map[] && Enabled(s, reset) && IsReset(reset, w)
    requires Legal(Next(s, reset), actions)
    requires forall a :: a in actions ==> !a.WriteSnapshot? && !(a.WriteHeartbeat? && a.hb.workerID == w)
    ensures var start := Next(s, reset);
            var capacity := Capacity(start, w);
            && Grants(start, actions, w) <= (if capacity > 0 then capacity else 0)
            && Misses(start, actions, w) <= (if capacity > 0 then |s.threads| - 1 else |s.threads|)
  {
    var start := Next(s, reset);
    GrantBound(start, actions, w);
    MissBound(start, actions, w);
    SubsetSize(InFlight(start, w), start.threads.Keys);
  }

  // -------------------------------------------------------- the bound is met

  // m calls of thread 0, one after the other, each given w.
  function SoloCalls(m: nat, req: ScheduleRequest, w: WorkerId): seq<Action> {
    if m == 0 then []
    else SoloCalls(m - 1, req, w) + [By(0, Submit(req)), By(0, Read(Some(w))), By(0, Commit)]
  }

  // Threads 0 to n - 1 all choose w before any of them commits.
  function Choosing(n: nat, req: ScheduleRequest, w: WorkerId): seq<Action> {
    if n == 0 then [] else Choosing(n - 1, req, w) + [By(n - 1, Submit(req)), By(n - 1, Read(Some(w)))]
  }

  function Committing(n: nat): seq<Action> {
    if n == 0 then [] else Committing(n - 1) + [By(n - 1, Commit)]
  }

  ghost predicate Poised(s: Sys, n: nat, w: WorkerId) {
    forall t: nat :: t < n ==> t in s.threads && s.threads[t].pc.Allocating? && s.threads[t].pc.choice == w
  }

  // n requests of threads between calls.
  ghost predicate Ready(s: Sys, n: nat) {
    forall t: nat :: t < n ==> t in s.threads && (s.threads[t].pc.Idle? || s.threads[t].pc.Done?)
  }

  // The actions lead from s to end with so many grants and misses of w.
  ghost predicate Tally(s: Sys, actions: seq<Action>, end: Sys, w: WorkerId, grants: int, misses: int) {
    Legal(s, actions) && After(s, actions) == end && Grants(s, actions, w) == grants && Misses(s, actions, w) == misses
  }

  lemma {:induction false} TalliesAdd(s: Sys, a: seq<Action>, mid: Sys, b: seq<Action>, end: Sys, w: WorkerId,
                                      g1: int, m1: int, g2: int, m2: int)
    requires Tally(s, a, mid, w, g1, m1) && Tally(mid, b, end, w, g2, m2)
    ensures Tally(s, a + b, end, w, g1 + g2, m1 + m2)
    decreases |a|
  {
    if a == [] {
      assert a + b == b;
    } else {
      var s' := Next(s, a[0]);
      assert (a + b)[1..] == a[1..] + b;
      TalliesAdd(s', a[1..], mid, b, end, w, Grants(s', a[1..], w), Misses(s', a[1..], w), g2, m2);
    }
  }

  // Nobody else is eligible, so w is what every request is given.
  ghost predicate OnlyChoice(s: Sys, req: ScheduleRequest, w: WorkerId) {
    !s.broadcastDue && req.Validate() && Eligible(s.store, req.requiredTags) == {w}
  }

  lemma OnlyChoiceIsChoice(s: Sys, req: ScheduleRequest, w: WorkerId)
    requires OnlyChoice(s, req, w)
    ensures Choices(s.store, req.requiredTags) == {w} && HasRoom(s.store, w)
  {
  }

  lemma SubmitStep(s: Sys, t: ThreadId, req: ScheduleRequest, w: WorkerId) returns (end: Sys)
    requires req.Validate() && t in s.threads && (s.threads[t].pc.Idle? || s.threads[t].pc.Done?)
    ensures Tally(s, [By(t, Submit(req))], end, w, 0, 0)
    ensures end == s.(threads := s.threads[t := Thread(FirstAttempt(req), s.gen, 0, 0)])
  {
    end := Next(s, By(t, Submit(req)));
    assert [By(t, Submit(req))][1..] == [];
  }

  lemma ReadStep(s: Sys, t: ThreadId, req: ScheduleRequest, w: WorkerId) returns (end: Sys)
    requires OnlyChoice(s, req, w) && t in s.threads && s.threads[t].pc == FirstAttempt(req)
    ensures Tally(s, [By(t, Read(Some(w)))], end, w, 0, 0)
    ensures end.threads.Keys == s.threads.Keys && end == s.(threads := s.threads[t := end.threads[t]])
    ensures end.threads[t].pc.Allocating? && end.threads[t].pc.choice == w
  {
    OnlyChoiceIsChoice(s, req, w);
    end := Next(s, By(t, Read(Some(w))));
    assert [By(t, Read(Some(w)))][1..] == [];
  }

  lemma CommitStep(s: Sys, t: ThreadId, w: WorkerId) returns (end: Sys)
    requires !s.broadcastDue && t in s.threads && s.threads[t].pc.Allocating? && s.threads[t].pc.choice == w
    ensures Tally(s, [By(t, Commit)], end, w, if HasRoom(s.store, w) then 1 else 0, if HasRoom(s.store, w) then 0 else 1)
    ensures end.threads.Keys == s.threads.Keys && end.threads[t].pc.Done?
    ensures end == s.(threads := s.threads[t := end.threads[t]], store := Allocate(s.store, w))
  {
    end := Next(s, By(t, Commit));
    assert [By(t, Commit)][1..] == [];
  }

  // Submitting and choosing, as one.
  lemma ChooseOnce(s: Sys, t: ThreadId, req: ScheduleRequest, w: WorkerId) returns (end: Sys)
    requires OnlyChoice(s, req, w) && t in s.threads && (s.threads[t].pc.Idle? || s.threads[t].pc.Done?)
    ensures Tally(s, [By(t, Submit(req)), By(t, Read(Some(w)))], end, w, 0, 0)
    ensures end.threads.Keys == s.threads.Keys && end == s.(threads := s.threads[t := end.threads[t]])
    ensures end.threads[t].pc.Allocating? && end.threads[t].pc.choice == w
  {
    var mid := SubmitStep(s, t, req, w);
    end := ReadStep(mid, t, req, w);
    TalliesAdd(s, [By(t, Submit(req))], mid, [By(t, Read(Some(w)))], end, w, 0, 0, 0, 0);
    assert [By(t, Submit(req))] + [By(t, Read(Some(w)))] == [By(t, Submit(req)), By(t, Read(Some(w)))];
  }

  lemma {:induction false} AllChoose(s: Sys, n: nat, req: ScheduleRequest, w: WorkerId) returns (end: Sys)
    requires OnlyChoice(s, req, w) && Ready(s, n)
    ensures Tally(s, Choosing(n, req, w), end, w, 0, 0)
    ensures end.threads.Keys == s.threads.Keys && end == s.(threads := end.threads) && Poised(end, n, w)
    ensures forall t :: t in s.threads && t >= n ==> end.threads[t] == s.threads[t]
  {
    end := s;
    if n > 0 {
      var mid := AllChoose(s, n - 1, req, w);
      end := ChooseOnce(mid, n - 1, req, w);
      TalliesAdd(s, Choosing(n - 1, req, w), mid, [By(n - 1, Submit(req)), By(n - 1, Read(Some(w)))], end, w, 0, 0, 0, 0);
    }
  }

  function Min(a: int, b: int): int {
    if a <= b then a else b
  }

  // As many of the poised requests get a slot as there are slots.
  lemma {:induction false} SomeWin(s: Sys, n: nat, k: nat, w: WorkerId) returns (end: Sys)
    requires !s.broadcastDue && k <= n && Poised(s, n, w)
    ensures var slots := if Capacity(s, w) > 0 then Min(k, Capacity(s, w)) else 0;
            && Tally(s, Committing(k), end, w, slots, k - slots)
            && Capacity(end, w) == Capacity(s, w) - slots
    ensures !end.broadcastDue && forall t: nat :: k <= t < n ==> t in end.threads && end.threads[t] == s.threads[t]
    decreases k
  {
    end := s;
    if k > 0 {
      var mid := SomeWin(s, n, k - 1, w);
      end := CommitStep(mid, k - 1, w);
      var slots := if Capacity(s, w) > 0 then Min(k - 1, Capacity(s, w)) else 0;
      var room := if HasRoom(mid.store, w) then 1 else 0;
      TalliesAdd(s, Committing(k - 1), mid, [By(k - 1, Commit)], end, w, slots, k - 1 - slots, room, 1 - room);
    }
  }

  lemma StaysOnlyChoice(s: Sys, req: ScheduleRequest, w: WorkerId)
    requires OnlyChoice(s, req, w) && Capacity(s, w) > 1
    ensures Eligible(Allocate(s.store, w), req.requiredTags) == {w}
  {
  }

  lemma {:induction false} SoloGrants(s: Sys, m: nat, n: nat, req: ScheduleRequest, w: WorkerId) returns (end: Sys)
    requires OnlyChoice(s, req, w) && n > 0 && Ready(s, n) && m < Capacity(s, w)
    ensures Tally(s, SoloCalls(m, req, w), end, w, m, 0)
    ensures OnlyChoice(end, req, w) && Ready(end, n) && Capacity(end, w) == Capacity(s, w) - m
    decreases m
  {
    end := s;
    if m > 0 {
      var mid := SoloGrants(s, m - 1, n, req, w);
      var poised := ChooseOnce(mid, 0, req, w);
      end := CommitStep(poised, 0, w);
      StaysOnlyChoice(mid, req, w);
      var choose := [By(0, Submit(req)), By(0, Read(Some(w)))];
      TalliesAdd(mid, choose, poised, [By(0, Commit)], end, w, 0, 0, 1, 0);
      assert choose + [By(0, Commit)] == [By(0, Submit(req)), By(0, Read(Some(w))), By(0, Commit)];
      TalliesAdd(s, SoloCalls(m - 1, req, w), mid, choose + [By(0, Commit)], end, w, m - 1, 0, 1, 0);
    }
  }

  // n requests choosing w at once, and then committing.
  function Race(n: nat, req: ScheduleRequest, w: WorkerId): seq<Action> {
    Choosing(n, req, w) + Committing(n)
  }

  lemma RaceForLast(s: Sys, req: ScheduleRequest, w: WorkerId, n: nat) returns (end: Sys)
    requires n > 0 && Ready(s, n) && OnlyChoice(s, req, w) && Capacity(s, w) == 1
    ensures Tally(s, Race(n, req, w), end, w, 1, n - 1)
  {
    var poised := AllChoose(s, n, req, w);
    end := SomeWin(poised, n, n, w);
    TalliesAdd(s, Choosing(n, req, w), poised, Committing(n), end, w, 0, 0, 1, n - 1);
  }

  // The bounds cannot be improved for any capacity and any N. With free slots,
  // all of them can go and N - 1 responses still name w without one: calls of
  // one request use up all slots but one, then N requests choose it at once.
  lemma OvercommitBoundIsMet(s: Sys, req: ScheduleRequest, w: WorkerId, n: nat) returns (end: Sys)
    requires n > 0 && |s.threads| == n && Ready(s, n)
    requires OnlyChoice(s, req, w) && Capacity(s, w) > 0
    ensures var run := SoloCalls(Capacity(s, w) - 1, req, w) + Race(n, req, w);
            && Tally(s, run, end, w, Capacity(s, w), n - 1)
            && forall a :: a in run ==> !IsReset(a, w)
  {
    var solo := Capacity(s, w) - 1;
    OnlyThreads(solo, n, req, w);
    var last := SoloGrants(s, solo, n, req, w);
    end := RaceForLast(last, req, w, n);
    TalliesAdd(s, SoloCalls(solo, req, w), last, Race(n, req, w), end, w, solo, 0, 1, n - 1);
  }

  // When the reset leaves no slot, all N responses of requests that had chosen
  // w before it can name w without one.
  lemma OvercommitBoundIsMetWhenFull(s: Sys, req: ScheduleRequest, w: WorkerId, n: nat, full: Heartbeat, now: Time)
    returns (before: seq<Action>, poised: Sys, end: Sys)
    requires n > 0 && |s.threads| == n && Ready(s, n)
    requires OnlyChoice(s, req, w) && full.workerID == w && full.maxTasks - full.currentTasks <= 0
    ensures Legal(s, before) && After(s, before) == poised && Enabled(poised, WriteHeartbeat(full, now))
    ensures Tally(Next(poised, WriteHeartbeat(full, now)), Committing(n), end, w, 0, n)
    ensures forall a :: a in Committing(n) ==> !IsReset(a, w)
  {
    OnlyThreads(0, n, req, w);
    assert forall a :: a in Committing(n) ==> a in SoloCalls(0, req, w) + Race(n, req, w);
    poised := AllChoose(s, n, req, w);
    before := Choosing(n, req, w);
    end := SomeWin(Next(poised, WriteHeartbeat(full, now)), n, n, w);
  }

  // These runs are steps of request threads only: nothing resets w in them.
  lemma {:induction false} OnlyThreads(m: nat, n: nat, req: ScheduleRequest, w: WorkerId)
    ensures forall a :: a in SoloCalls(m, req, w) + Race(n, req, w) ==> !IsReset(a, w)
    decreases m + n
  {
    if m > 0 {
      OnlyThreads(m - 1, n, req, w);
    } else if n > 0 {
      OnlyThreads(m, n - 1, req, w);
    }
  }

  // ------------------------------------------------ such states are reached

  function IdleThreads(n: nat): (threads: map<ThreadId, Thread>)
    ensures |threads| == n
    ensures forall t: ThreadId :: t in threads <==> t < n
    ensures forall t: ThreadId :: t in threads ==> threads[t] == Thread(Idle, 0, 0, 0)
  {
    if n == 0 then map[]
    else
      var fewer := IdleThreads(n - 1);
      assert fewer[n - 1 := Thread(Idle, 0, 0, 0)].Keys == fewer.Keys + {n - 1};
      fewer[n - 1 := Thread(Idle, 0, 0, 0)]
  }

  // The heartbeat of one free worker, on an empty node.
  lemma FirstWorker(s: Sys, hb: Heartbeat, now: Time, req: ScheduleRequest) returns (start: Sys)
    requires Init(s) && hb.maxTasks - hb.currentTasks > 0 && req.Validate()
    requires forall t :: t in req.requiredTags ==> t in hb.resourceTags
    ensures Legal(s, [WriteHeartbeat(hb, now), Broadcast])
    ensures After(s, [WriteHeartbeat(hb, now), Broadcast]) == start
    ensures OnlyChoice(start, req, hb.workerID) && Capacity(start, hb.workerID) == hb.maxTasks - hb.currentTasks
    ensures start.threads == s.threads
  {
    var mid := Next(s, WriteHeartbeat(hb, now));
    start := Next(mid, Broadcast);
    assert [WriteHeartbeat(hb, now), Broadcast][1..] == [Broadcast];
    assert [Broadcast][1..] == [];
    BeatContents(EMPTY, hb, now);
    assert Candidates(start.store, req.requiredTags) == {hb.workerID};
  }

  // From an empty node, for every number n of requests and every capacity c: a
  // run in which a worker reports c free slots, and then, before any reset, c
  // responses get a slot of it and n - 1 name it without one.
  lemma OvercommitIsReached(n: nat, c: nat, hb: Heartbeat, now: Time, req: ScheduleRequest, cfg: Config)
    returns (s: Sys, start: Sys, run: seq<Action>, end: Sys)
    requires n > 0 && c > 0 && hb.maxTasks - hb.currentTasks == c && req.Validate()
    requires forall t :: t in req.requiredTags ==> t in hb.resourceTags
    ensures Init(s) && |s.threads| == n
    ensures Legal(s, [WriteHeartbeat(hb, now), Broadcast])
    ensures After(s, [WriteHeartbeat(hb, now), Broadcast]) == start
    ensures Tally(start, run, end, hb.workerID, c, n - 1)
    ensures forall a :: a in run ==> !IsReset(a, hb.workerID)
  {
    s := Sys(EMPTY, cfg, false, 0, IdleThreads(n));
    start := FirstWorker(s, hb, now, req);
    run := SoloCalls(c - 1, req, hb.workerID) + Race(n, req, hb.workerID);
    end := OvercommitBoundIsMet(start, req, hb.workerID, n);
  }

  // The same for a second report without a free slot, after which n responses
  // name the worker without one.
  lemma OvercommitIsReachedWhenFull(n: nat, hb: Heartbeat, full: Heartbeat, now: Time, req: ScheduleRequest, cfg: Config)
    returns (s: Sys, start: Sys, before: seq<Action>, poised: Sys, end: Sys)
    requires n > 0 && hb.maxTasks - hb.currentTasks > 0 && req.Validate()
    requires forall t :: t in req.requiredTags ==> t in hb.resourceTags
    requires full.workerID == hb.workerID && full.maxTasks - full.currentTasks <= 0
    ensures Init(s) && |s.threads| == n
    ensures Legal(s, [WriteHeartbeat(hb, now), Broadcast])
    ensures After(s, [WriteHeartbeat(hb, now), Broadcast]) == start
    ensures Legal(start, before) && After(start, before) == poised && Enabled(poised, WriteHeartbeat(full, now))
    ensures Tally(Next(poised, WriteHeartbeat(full, now)), Committing(n), end, hb.workerID, 0, n)
    ensures forall a :: a in Committing(n) ==> !IsReset(a, hb.workerID)
  {
    s := Sys(EMPTY, cfg, false, 0, IdleThreads(n));
    start := FirstWorker(s, hb, now, req);
    before, poised, end := OvercommitBoundIsMetWhenFull(start, req, hb.workerID, n, full, now);
  }
}
