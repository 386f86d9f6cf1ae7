// Roles, failover detection and the gates they control.
module Failover {
  import opened Types

  datatype Role = Master | Standby

  class RoleHolder {
    var role: Role

    constructor (initial: Role)
      ensures role == initial
    {
      role := initial;
    }

    method Set(r: Role)
      modifies this
      ensures role == r
    {
      role := r;
    }
  }

  // -------------------------------------------------------------- monitor

  // What the monitor's select observes: a tick whose health check succeeds or
  // fails, or the cancellation of its context.
  datatype Observation = Healthy | Failed | Stopped

  function Needed(failThreshold: int): nat {
    if failThreshold < 1 then 1 else failThreshold
  }

  // The n observations up to and including index i are all failures.
  predicate FailureRunEndsAt(obs: seq<Observation>, i: int, n: nat) {
    && n <= i + 1 <= |obs|
    && forall j :: i + 1 - n <= j <= i ==> obs[j] == Failed
  }

  // i is where the monitor promotes: the first end of a long enough run of
  // failures, not preceded by a cancellation.
  predicate PromotesAt(obs: seq<Observation>, failThreshold: int, i: nat) {
    && FailureRunEndsAt(obs, i, Needed(failThreshold))
    && (forall j :: 0 <= j < i ==> !FailureRunEndsAt(obs, j, Needed(failThreshold)))
    && (forall j :: 0 <= j < i ==> obs[j] != Stopped)
  }

  class FailoverMonitor {
    const failThreshold: int
    const holder: RoleHolder
    var consecutiveFails: nat
    // How often onPromote has been called.
    var promotions: nat

    constructor (failThreshold: int, holder: RoleHolder)
      ensures this.failThreshold == failThreshold && this.holder == holder
      ensures consecutiveFails == 0 && promotions == 0
    {
      this.failThreshold := failThreshold;
      this.holder := holder;
      consecutiveFails := 0;
      promotions := 0;
    }

    method OnPromote()
      modifies this`promotions, holder
      ensures holder.role == Master && promotions == old(promotions) + 1
    {
      promotions := promotions + 1;
      holder.Set(Master);
    }

    // One tick of the monitor, after a health check with this outcome.
    method Tick(ok: bool) returns (promoted: bool)
      modifies this, holder
      ensures consecutiveFails == if ok then 0 else old(consecutiveFails) + 1
      ensures promoted <==> !ok && consecutiveFails >= failThreshold
      ensures promotions == old(promotions) + if promoted then 1 else 0
      ensures holder.role == if promoted then Master else old(holder.role)
    {
      if ok {
        consecutiveFails := 0;
      } else {
        consecutiveFails := consecutiveFails + 1;
        if consecutiveFails >= failThreshold {
          OnPromote();
          return true;
        }
      }
      return false;
    }

    // Runs until promotion, cancellation or the end of what is observed, and
    // says where it promoted.
    method Start(obs: seq<Observation>) returns (promotedAt: Option<nat>)
      modifies this, holder
      ensures promotedAt.Some? ==> PromotesAt(obs, failThreshold, promotedAt.value)
      ensures promotedAt.Some? ==> Stopped !in obs[..promotedAt.value]
      ensures promotedAt.None? ==> forall i: nat :: !PromotesAt(obs, failThreshold, i)
      ensures promotions == old(promotions) + if promotedAt.Some? then 1 else 0
      ensures holder.role == if promotedAt.Some? then Master else old(holder.role)
    {
      consecutiveFails := 0;
      for i := 0 to |obs|
        invariant consecutiveFails <= i && consecutiveFails < Needed(failThreshold)
        invariant forall j :: i - consecutiveFails <= j < i ==> obs[j] == Failed
        invariant consecutiveFails < i ==> obs[i - consecutiveFails - 1] != Failed
        invariant forall j :: 0 <= j < i ==> !FailureRunEndsAt(obs, j, Needed(failThreshold))
        invariant forall j :: 0 <= j < i ==> obs[j] != Stopped
        invariant promotions == old(promotions) && holder.role == old(holder.role)
      {
        if obs[i] == Stopped {
          assert forall k: nat :: k >= i && FailureRunEndsAt(obs, k, Needed(failThreshold)) ==> obs[k] == Failed && k > i;
          return None;
        }
        var promoted := Tick(obs[i] == Healthy);
        if promoted {
          return Some(i);
        }
        assert !FailureRunEndsAt(obs, i, Needed(failThreshold)) by {
          assert consecutiveFails <= i ==> obs[i - consecutiveFails] != Failed;
        }
      }
      return None;
    }
  }

  // ------------------------------------------------ a standby over its life

  // Request handling is in two steps: the gate reads the role, then the
  // handler runs, possibly much later.
  datatype Event =
    | Poll(ok: bool)
    | AdmitSync(sync: nat)
    | ApplySync(sync: nat)
    | DropSync(sync: nat)      // not a POST, or a body that does not decode
    | AdmitSchedule
    | RejectSync
    | RejectSchedule

  // fails counts the monitor's consecutive failures; admitted holds the syncs
  // that passed the gate and are neither loaded nor dropped yet.
  datatype Node = Node(role: Role, fails: nat, admitted: set<nat>)

  const STARTED := Node(Standby, 0, {})

  predicate Allowed(n: Node, e: Event) {
    match e
    case Poll(_) => n.role == Standby      // the monitor stops when it promotes
    case AdmitSync(k) => n.role == Standby && k !in n.admitted
    case ApplySync(k) => k in n.admitted
    case DropSync(k) => k in n.admitted
    case AdmitSchedule => n.role == Master
    case RejectSync => n.role != Standby
    case RejectSchedule => n.role != Master
  }

  function Step(n: Node, e: Event, failThreshold: int): Node {
    match e
    case Poll(true) => n.(fails := 0)
    case Poll(false) => n.(fails := n.fails + 1, role := if n.fails + 1 >= failThreshold then Master else n.role)
    case AdmitSync(k) => n.(admitted := n.admitted + {k})
    case ApplySync(k) => n.(admitted := n.admitted - {k})
    case DropSync(k) => n.(admitted := n.admitted - {k})
    case _ => n
  }

  function NodeAfter(events: seq<Event>, failThreshold: int): Node {
    if events == [] then STARTED
    else Step(NodeAfter(events[..|events| - 1], failThreshold), events[|events| - 1], failThreshold)
  }

  predicate IsLife(events: seq<Event>, failThreshold: int) {
    events == [] ||
    (IsLife(events[..|events| - 1], failThreshold) &&
     Allowed(NodeAfter(events[..|events| - 1], failThreshold), events[|events| - 1]))
  }

  // The monitor's view of a life.
  function Polls(events: seq<Event>): seq<Observation> {
    if events == [] then []
    else
      var e := events[|events| - 1];
      Polls(events[..|events| - 1]) + if e.Poll? then [if e.ok then Healthy else Failed] else []
  }

  lemma {:induction false} LifePrefix(events: seq<Event>, failThreshold: int, i: nat)
    requires IsLife(events, failThreshold) && i <= |events|
    ensures IsLife(events[..i], failThreshold)
    ensures i < |events| ==> Allowed(NodeAfter(events[..i], failThreshold), events[i])
    decreases |events|
  {
    if i < |events| {
      var front := events[..|events| - 1];
      if i < |front| {
        assert front[..i] == events[..i];
        LifePrefix(front, failThreshold, i);
      } else {
        assert front == events[..i];
      }
    } else {
      assert events[..i] == events;
    }
  }

  // The node's role and failure count are what the polls so far imply.
  lemma {:induction false} RoleFollowsPolls(events: seq<Event>, failThreshold: int)
    requires IsLife(events, failThreshold)
    ensures var n, obs := NodeAfter(events, failThreshold), Polls(events);
            && n.fails <= |obs|
            && (forall j :: |obs| - n.fails <= j < |obs| ==> obs[j] == Failed)
            && (n.fails < |obs| ==> obs[|obs| - n.fails - 1] == Healthy)
            && (forall j :: 0 <= j < |obs| - 1 ==> !FailureRunEndsAt(obs, j, Needed(failThreshold)))
            && (n.role == Master <==> FailureRunEndsAt(obs, |obs| - 1, Needed(failThreshold)))
            && (n.role == Standby ==> n.fails < Needed(failThreshold))
  {
    if events != [] {
      var front, e := events[..|events| - 1], events[|events| - 1];
      RoleFollowsPolls(front, failThreshold);
      if e.Poll? {
        PollAdds(Polls(front), if e.ok then Healthy else Failed, Needed(failThreshold), NodeAfter(front, failThreshold).fails);
      } else {
        assert Polls(events) == Polls(front);
      }
    }
  }

  lemma RunsOfPrefix(obs: seq<Observation>, o: Observation, j: nat, n: nat)
    requires j < |obs|
    ensures FailureRunEndsAt(obs + [o], j, n) <==> FailureRunEndsAt(obs, j, n)
  {
    assert forall k :: 0 <= k <= j ==> (obs + [o])[k] == obs[k];
  }

  // Observing once more, after no long enough run of failures has ended yet.
  lemma PollAdds(obs: seq<Observation>, o: Observation, n: nat, fails: nat)
    requires o != Stopped && 1 <= n && fails < n && fails <= |obs|
    requires forall j :: |obs| - fails <= j < |obs| ==> obs[j] == Failed
    requires fails < |obs| ==> obs[|obs| - fails - 1] == Healthy
    requires forall j :: 0 <= j < |obs| ==> !FailureRunEndsAt(obs, j, n)
    ensures forall j :: 0 <= j < |obs| ==> !FailureRunEndsAt(obs + [o], j, n)
    ensures FailureRunEndsAt(obs + [o], |obs|, n) <==> o == Failed && fails + 1 >= n
  {
    var more := obs + [o];
    forall j | 0 <= j < |obs|
      ensures !FailureRunEndsAt(more, j, n)
    {
      RunsOfPrefix(obs, o, j, n);
    }
    if o == Failed && fails + 1 < n && n <= |obs| + 1 {
      assert more[|obs| - fails - 1] == Healthy;
    }
    if o != Failed {
      assert more[|obs|] != Failed;
    }
  }

  // The role history is standby* master*.
  lemma {:induction false} MasterForever(events: seq<Event>, failThreshold: int, i: nat)
    requires IsLife(events, failThreshold) && i <= |events|
    requires NodeAfter(events[..i], failThreshold).role == Master
    ensures NodeAfter(events, failThreshold).role == Master
    decreases |events|
  {
    if i < |events| {
      var front := events[..|events| - 1];
      assert front[..i] == events[..i];
      MasterForever(front, failThreshold, i);
    } else {
      assert events[..i] == events;
    }
  }

  // A schedule request is admitted only after the monitor has seen a full run of
  // failures, at the very observation where it promotes.
  lemma SchedulesFollowFailover(events: seq<Event>, failThreshold: int, i: nat)
    requires IsLife(events, failThreshold) && i < |events| && events[i].AdmitSchedule?
    ensures var obs := Polls(events[..i]); |obs| > 0 && PromotesAt(obs, failThreshold, |obs| - 1)
  {
    LifePrefix(events, failThreshold, i);
    RoleFollowsPolls(events[..i], failThreshold);
    NeverStopped(events[..i]);
  }

  // The gates decide by the polls alone: a schedule request is admitted if a full
  // run of failures has ended by then and rejected if none has, a sync the other
  // way round. So from the promotion on no schedule request is rejected.
  lemma GatesFollowPolls(events: seq<Event>, failThreshold: int, i: nat)
    requires IsLife(events, failThreshold) && i < |events|
    ensures var obs := Polls(events[..i]);
            var failedOver := exists j :: FailureRunEndsAt(obs, j, Needed(failThreshold));
            && (events[i].AdmitSchedule? || events[i].RejectSync? ==> failedOver)
            && (events[i].RejectSchedule? || events[i].AdmitSync? ==> !failedOver)
  {
    LifePrefix(events, failThreshold, i);
    RoleFollowsPolls(events[..i], failThreshold);
    var obs := Polls(events[..i]);
    forall j | FailureRunEndsAt(obs, j, Needed(failThreshold))
      ensures NodeAfter(events[..i], failThreshold).role == Master
    {
      assert 0 <= j < |obs|;
    }
  }

  lemma {:induction false} NeverStopped(events: seq<Event>)
    ensures forall j :: 0 <= j < |Polls(events)| ==> Polls(events)[j] != Stopped
  {
    if events != [] {
      NeverStopped(events[..|events| - 1]);
    }
  }

  // A pending sync was admitted while the node was a standby, and has not been
  // loaded since.
  lemma {:induction false} PendingWasAdmitted(events: seq<Event>, failThreshold: int, sync: nat) returns (j: nat)
    requires IsLife(events, failThreshold) && sync in NodeAfter(events, failThreshold).admitted
    ensures j < |events| && events[j] == AdmitSync(sync)
    ensures NodeAfter(events[..j], failThreshold).role == Standby
    ensures forall m :: j < m < |events| ==> events[m] != ApplySync(sync)
  {
    var front, e := events[..|events| - 1], events[|events| - 1];
    if e == AdmitSync(sync) {
      j := |events| - 1;
    } else {
      j := PendingWasAdmitted(front, failThreshold, sync);
      assert front[..j] == events[..j];
      forall m | j < m < |events|
        ensures events[m] != ApplySync(sync)
      {
        assert m < |front| ==> events[m] == front[m];
      }
    }
  }

  // Every snapshot the node loads comes from a sync it admitted as a standby,
  // and no admission is loaded twice.
  lemma LoadsComeFromStandby(events: seq<Event>, failThreshold: int, i: nat) returns (j: nat)
    requires IsLife(events, failThreshold) && i < |events| && events[i].ApplySync?
    ensures j < i && events[j] == AdmitSync(events[i].sync)
    ensures NodeAfter(events[..j], failThreshold).role == Standby
    ensures forall m :: j < m < i ==> events[m] != events[i]
  {
    LifePrefix(events, failThreshold, i);
    j := PendingWasAdmitted(events[..i], failThreshold, events[i].sync);
    assert events[..i][..j] == events[..j];
    forall m | j < m < i
      ensures events[m] != events[i]
    {
      assert events[m] == events[..i][m];
    }
  }

  // From the promotion on nothing is admitted any more, so all that can still be
  // loaded is what was pending then.
  lemma {:induction false} OnlyPending(events: seq<Event>, failThreshold: int, i: nat)
    requires IsLife(events, failThreshold) && i <= |events|
    requires NodeAfter(events[..i], failThreshold).role == Master
    ensures NodeAfter(events, failThreshold).admitted <= NodeAfter(events[..i], failThreshold).admitted
    ensures forall k :: i <= k < |events| && events[k].ApplySync? ==>
              events[k].sync in NodeAfter(events[..i], failThreshold).admitted
    decreases |events|
  {
    if i < |events| {
      var front := events[..|events| - 1];
      assert front[..i] == events[..i];
      OnlyPending(front, failThreshold, i);
      MasterForever(front, failThreshold, i);
      forall k | i <= k < |events| && events[k].ApplySync?
        ensures events[k].sync in NodeAfter(events[..i], failThreshold).admitted
      {
        assert k < |front| ==> events[k] == front[k];
      }
    } else {
      assert events[..i] == events;
    }
  }

  // A master refuses state replication for good if and only if no sync is
  // pending: the gate alone does not keep snapshots off its table.
  lemma LateLoadIff(events: seq<Event>, failThreshold: int)
    requires IsLife(events, failThreshold) && NodeAfter(events, failThreshold).role == Master
    ensures NodeAfter(events, failThreshold).admitted == {} <==>
            forall more, e :: IsLife(events + more, failThreshold) && e in more ==> !e.ApplySync?
  {
    var node := NodeAfter(events, failThreshold);
    if node.admitted == {} {
      forall more, e | IsLife(events + more, failThreshold) && e in more
        ensures !e.ApplySync?
      {
        assert (events + more)[..|events|] == events;
        OnlyPending(events + more, failThreshold, |events|);
        var k :| 0 <= k < |more| && more[k] == e;
        assert (events + more)[|events| + k] == e;
      }
    } else {
      var sync :| sync in node.admitted;
      var more := [ApplySync(sync)];
      assert (events + more)[..|events + more| - 1] == events;
      assert IsLife(events + more, failThreshold) && ApplySync(sync) in more;
    }
  }

  // A life in which a sync admitted before the promotion is loaded after it.
  lemma LateLoadIsPossible(sync: nat)
    ensures var life := [AdmitSync(sync), Poll(false), AdmitSchedule, ApplySync(sync)];
            && IsLife(life, 1)
            && NodeAfter(life[..3], 1).role == Master
  {
    var life := [AdmitSync(sync), Poll(false), AdmitSchedule, ApplySync(sync)];
    assert life[..1][..0] == [];
    assert life[..1] == [AdmitSync(sync)];
    assert life[..2][..1] == life[..1];
    assert life[..3][..2] == life[..2];
    assert life[..4] == life;
    assert life[..4][..3] == life[..3];
    assert NodeAfter(life[..1], 1) == Node(Standby, 0, {sync});
    assert NodeAfter(life[..2], 1) == Node(Master, 1, {sync});
    assert NodeAfter(life[..3], 1) == Node(Master, 1, {sync});
    assert IsLife(life[..1], 1);
    assert IsLife(life[..2], 1);
    assert IsLife(life[..3], 1);
  }
}
