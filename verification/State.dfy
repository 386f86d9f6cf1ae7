// The lock-protected worker table. Each method is one critical section; the
// clock reading it takes inside the lock is a parameter.
module State {
  import opened Types
  import opened WorkerStore
  import opened TagIndexes
  import opened WaitQueue

  class StateManager {
    var workers: Table
    var tags: TagIndex
    const capacity: CapacityNotifier
    const cfg: Config

    ghost function Repr(): set<object>
      reads this, capacity
    {
      {this, tags} + capacity.Repr()
    }

    ghost predicate Valid()
      reads this, tags, capacity, capacity.armed
    {
      capacity.Valid() && {this, tags} !! capacity.Repr() && Coherent(Contents())
    }

    ghost function Contents(): Store
      reads this, tags
    {
      Store(workers, tags.index)
    }

    constructor (cfg: Config)
      ensures Valid() && fresh(Repr())
      ensures Contents() == EMPTY && capacity.Generation() == 0
      ensures this.cfg == cfg
    {
      workers := map[];
      tags := new TagIndex();
      capacity := new CapacityNotifier();
      this.cfg := cfg;
    }

    method UpdateFromHeartbeat(hb: Heartbeat, now: Time)
      requires Valid()
      modifies Repr()
      ensures Valid() && fresh(Repr() - old(Repr()))
      ensures Contents() == Beat(old(Contents()), hb, now)
      ensures workers == old(workers)[hb.workerID :=
                WorkerState(hb.workerID, hb.address, hb.resourceTags, hb.maxTasks, hb.currentTasks,
                            hb.maxTasks - hb.currentTasks, now, Online, hb.metrics)]
      ensures old(capacity.armed) <= capacity.armed
      ensures capacity.Generation() == old(capacity.Generation()) + if hb.maxTasks - hb.currentTasks > 0 then 1 else 0
    {
      BeatCoherent(Contents(), hb, now);
      Record(hb, now);
      ghost var written := Contents();
      if workers[hb.workerID].available > 0 {
        capacity.Broadcast();
      }
      assert Contents() == written;
    }

    // The index and table updates of UpdateFromHeartbeat.
    method Record(hb: Heartbeat, now: Time)
      requires Coherent(Contents())
      modifies this`workers, tags
      ensures Contents() == Beat(old(Contents()), hb, now)
    {
      var worker: WorkerState;
      if hb.workerID !in workers {
        worker := WorkerState(hb.workerID, "", [], 0, 0, 0, 0, Offline, hb.metrics);
        tags.Add(hb.workerID, hb.resourceTags);
      } else {
        worker := workers[hb.workerID];
        tags.Update(hb.workerID, worker.resourceTags, hb.resourceTags);
      }
      worker := worker.(
        address := hb.address,
        resourceTags := hb.resourceTags,
        maxTasks := hb.maxTasks,
        currentTasks := hb.currentTasks,
        available := hb.maxTasks - hb.currentTasks,
        metrics := hb.metrics,
        lastHeartbeat := now,
        status := Online);
      workers := workers[hb.workerID := worker];
    }

    // A nil record makes the loop panic; the deferred unlock leaves what has
    // been loaded so far, and the broadcast is never reached.
    method LoadSnapshot(snapshot: Snapshot) returns (panicked: bool)
      requires Valid()
      modifies Repr()
      ensures Valid() && fresh(Repr() - old(Repr()))
      ensures panicked <==> !IsWhole(snapshot)
      ensures Contents() == Load(Received(snapshot))
      ensures old(capacity.armed) <= capacity.armed
      ensures capacity.Generation() == old(capacity.Generation()) + if panicked then 0 else 1
    {
      workers := map[];
      tags := new TagIndex();
      panicked := Fill(snapshot);
      if panicked {
        return;
      }
      ghost var loaded := Contents();
      capacity.Broadcast();
      assert Contents() == loaded;
    }

    // The loop of LoadSnapshot, over empty tables.
    method Fill(snapshot: Snapshot) returns (panicked: bool)
      requires Contents() == EMPTY
      modifies this`workers, tags
      ensures panicked <==> !IsWhole(snapshot)
      ensures Contents() == Load(Received(snapshot)) && Coherent(Contents())
    {
      ghost var received := Received(snapshot);
      for i := 0 to |snapshot|
        invariant i <= |received|
        invariant workers == Load(received[..i]).workers
        invariant tags.index == Load(received[..i]).index
      {
        if snapshot[i].None? {
          assert received[..i] == received;
          LoadCoherent(received);
          return true;
        }
        LoadStep(received, i);
        workers := workers[snapshot[i].value.workerID := snapshot[i].value];
        tags.Add(snapshot[i].value.workerID, snapshot[i].value.resourceTags);
      }
      assert received[..|snapshot|] == received;
      LoadCoherent(received);
      return false;
    }

    method CapacityChanged() returns (changed: Channel)
      requires Valid()
      ensures changed == capacity.armed[capacity.Generation()]
      ensures !changed.closed
    {
      changed := capacity.WaitChan();
    }

    // Go ranges over a map in any order.
    method ListWorkers() returns (list: seq<WorkerState>)
      requires Valid()
      ensures Lists(list, workers.Keys, workers)
    {
      list := [];
      var rest := workers.Keys;
      while rest != {}
        invariant rest <= workers.Keys
        invariant Lists(list, workers.Keys - rest, workers)
        decreases rest
      {
        var id :| id in rest;
        ListsOneMore(list, workers.Keys - rest, workers, id);
        list := list + [workers[id]];
        assert workers.Keys - rest + {id} == workers.Keys - (rest - {id});
        rest := rest - {id};
      }
      assert workers.Keys - rest == workers.Keys;
    }

    method CandidatesByTags(required: seq<Tag>) returns (result: seq<WorkerState>)
      requires Valid()
      ensures Lists(result, Candidates(Contents(), required), workers)
    {
      if required == [] {
        result := ListWorkers();
        assert Candidates(Contents(), required) == workers.Keys;
        return;
      }
      var ids := tags.Candidates(required);
      result := [];
      ghost var seen: set<WorkerId> := {};
      for i := 0 to |ids|
        invariant seen == (set id | id in ids[..i] && id in workers)
        invariant Lists(result, seen, workers)
      {
        assert ids[..i + 1] == ids[..i] + [ids[i]];
        if ids[i] in workers {
          ListsOneMore(result, seen, workers, ids[i]);
          result := result + [workers[ids[i]]];
          seen := seen + {ids[i]};
        }
      }
      assert ids[..|ids|] == ids;
      assert seen == Candidates(Contents(), required);
    }

    method CheckTimeouts(now: Time)
      requires Valid()
      modifies this`workers
      ensures Valid()
      ensures Contents() == Timeouts(old(Contents()), now, cfg)
      ensures workers.Keys == old(workers).Keys
      ensures forall id :: id in workers ==>
                var was, age := old(workers)[id], now - old(workers)[id].lastHeartbeat;
                workers[id] == was.(status := if age > cfg.offline then Offline
                                              else if age > cfg.suspicious then Suspicious else was.status)
    {
      TimeoutsCoherent(Contents(), now, cfg);
      AgeAll(now);
    }

    // The loop of CheckTimeouts.
    method AgeAll(now: Time)
      modifies this`workers
      ensures Contents() == Timeouts(old(Contents()), now, cfg)
    {
      var rest := workers.Keys;
      while rest != {}
        invariant rest <= workers.Keys == old(workers).Keys
        invariant forall id :: id in rest ==> workers[id] == old(workers)[id]
        invariant forall id :: id in workers && id !in rest ==> workers[id] == Aged(old(workers)[id], now, cfg)
        decreases rest
      {
        var id :| id in rest;
        var elapsed := now - workers[id].lastHeartbeat;
        if elapsed > cfg.offline {
          workers := workers[id := workers[id].(status := Offline)];
        } else if elapsed > cfg.suspicious {
          workers := workers[id := workers[id].(status := Suspicious)];
        }
        rest := rest - {id};
      }
    }

    method AllocateTask(workerID: WorkerId) returns (ok: bool)
      requires Valid()
      modifies this`workers
      ensures Valid()
      ensures ok <==> workerID in old(workers) && old(workers)[workerID].available > 0
      ensures Contents() == Allocate(old(Contents()), workerID)
      ensures !ok ==> workers == old(workers)
      ensures ok ==>
                var was := old(workers)[workerID];
                workers == old(workers)[workerID :=
                  was.(currentTasks := was.currentTasks + 1, available := was.available - 1)]
    {
      AllocateCoherent(Contents(), workerID);
      if workerID !in workers || workers[workerID].available <= 0 {
        return false;
      }
      var worker := workers[workerID];
      worker := worker.(currentTasks := worker.currentTasks + 1);
      worker := worker.(available := worker.available - 1);
      workers := workers[workerID := worker];
      return true;
    }
  }

  lemma LoadStep(snapshot: seq<WorkerState>, i: nat)
    requires i < |snapshot|
    ensures var s, w := Load(snapshot[..i]), snapshot[i];
            Load(snapshot[..i + 1]) == Store(s.workers[w.workerID := w], Added(s.index, w.workerID, w.resourceTags))
  {
    assert snapshot[..i + 1][..i] == snapshot[..i];
  }

  lemma ListsOneMore(list: seq<WorkerState>, ids: set<WorkerId>, workers: Table, id: WorkerId)
    requires Lists(list, ids, workers)
    requires id in workers && workers[id].workerID == id && id !in ids
    ensures Lists(list + [workers[id]], ids + {id}, workers)
  {
    var more := list + [workers[id]];
    forall i, j | 0 <= i < j < |more|
      ensures more[i].workerID != more[j].workerID
    {
      if j == |list| {
        assert list[i] in list;
        assert list[i].workerID in IdsOf(list);
      }
    }
    assert forall w :: w in more <==> w in list || w == workers[id];
    assert IdsOf(more) == IdsOf(list) + {id};
  }
}
