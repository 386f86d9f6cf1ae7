// A node started as standby: its role, its monitor, its request gates and the
// table its sync endpoint loads into. Each method performs one event of the
// life machine, so the theorems about lives are about this node.
module StandbyNode {
  import opened Types
  import opened WorkerStore
  import opened State
  import opened Failover

  class StandbyNode {
    const holder: RoleHolder
    const monitor: FailoverMonitor
    const state: StateManager

    // What the syncs carry that have passed the gate and not been handled yet:
    // a snapshot, or nothing that can be decoded.
    var admitted: map<nat, Option<Snapshot>>

    ghost predicate Valid()
      reads this, holder, monitor, state, state.tags, state.capacity, state.capacity.armed
    {
      && monitor.holder == holder
      && {this, holder, monitor} !! state.Repr()
      && state.Valid()
    }

    ghost function View(): Node
      reads this, holder, monitor
    {
      Node(holder.role, monitor.consecutiveFails, admitted.Keys)
    }

    // e is an event the machine allows, and it is what has happened.
    twostate predicate Did(e: Event)
      reads this, holder, monitor
    {
      Allowed(old(View()), e) && View() == Step(old(View()), e, monitor.failThreshold)
    }

    constructor (failThreshold: int, cfg: Config)
      ensures Valid() && fresh(holder) && fresh(monitor) && fresh(state.Repr())
      ensures View() == STARTED && state.Contents() == EMPTY
      ensures monitor.failThreshold == failThreshold
    {
      var role := new RoleHolder(Standby);
      holder := role;
      monitor := new FailoverMonitor(failThreshold, role);
      state := new StateManager(cfg);
      admitted := map[];
    }

    method RequireRole(want: Role) returns (pass: bool)
      ensures pass <==> holder.role == want
    {
      pass := holder.role == want;
    }

    // The monitor's goroutine ends when it promotes.
    method MonitorTick(ok: bool)
      requires Valid() && holder.role == Standby
      modifies monitor, holder
      ensures Valid() && Did(Poll(ok))
      ensures state.Contents() == old(state.Contents())
    {
      var promoted := monitor.Tick(ok);
    }

    method SyncRequest(sync: nat, body: Option<Snapshot>) returns (pass: bool)
      requires Valid() && sync !in admitted
      modifies this`admitted
      ensures pass <==> holder.role == Standby
      ensures Valid() && Did(if pass then AdmitSync(sync) else RejectSync)
      ensures admitted == if pass then old(admitted)[sync := body] else old(admitted)
    {
      pass := RequireRole(Standby);
      if pass {
        admitted := admitted[sync := body];
      }
    }

    // The handler behind the gate runs whenever it gets to; it no longer looks
    // at the role. Without a snapshot it answers with an error; a nil record
    // makes it panic, which ends only this request.
    method RunSync(sync: nat) returns (panicked: bool)
      requires Valid() && sync in admitted
      modifies this`admitted, state.Repr()
      ensures Valid() && fresh(state.Repr() - old(state.Repr()))
      ensures Did(if old(admitted)[sync].Some? then ApplySync(sync) else DropSync(sync))
      ensures admitted == old(admitted) - {sync}
      ensures state.Contents() ==
                if old(admitted)[sync].Some? then Load(Received(old(admitted)[sync].value)) else old(state.Contents())
      ensures panicked <==> old(admitted)[sync].Some? && !IsWhole(old(admitted)[sync].value)
    {
      panicked := false;
      if admitted[sync].Some? {
        panicked := state.LoadSnapshot(admitted[sync].value);
      }
      admitted := admitted - {sync};
    }

    method GateSchedule() returns (pass: bool)
      requires Valid()
      ensures pass <==> holder.role == Master
      ensures Did(if pass then AdmitSchedule else RejectSchedule)
    {
      pass := RequireRole(Master);
    }
  }
}
