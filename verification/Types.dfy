// The records exchanged between workers, clients and schedulers.
module Types {

  type WorkerId = string
  type Tag = string

  // Instants and durations, in nanoseconds.
  type Time = int

  const INT64_MIN := -0x8000_0000_0000_0000
  const INT64_MAX := 0x7fff_ffff_ffff_ffff

  predicate IsInt64(n: int) {
    INT64_MIN <= n <= INT64_MAX
  }

  // The value a 64-bit two's complement register holds after computing n.
  function Wrap64(n: int): (r: int)
    ensures -0x8000_0000_0000_0000 <= r < 0x8000_0000_0000_0000
    ensures (r - n) % 0x1_0000_0000_0000_0000 == 0
  {
    (n - INT64_MIN) % 0x1_0000_0000_0000_0000 + INT64_MIN
  }

  datatype Option<+T> = None | Some(value: T)

  datatype WorkerStatus = Online | Suspicious | Offline

  datatype WorkerMetrics = WorkerMetrics(cpuUsage: real, memoryUsage: real, gpuUsage: real)

  datatype Heartbeat = Heartbeat(
    workerID: WorkerId,
    timestamp: int,
    resourceTags: seq<Tag>,
    maxTasks: int,
    currentTasks: int,
    address: string,
    metrics: WorkerMetrics)
  {
    predicate Validate() {
      workerID != "" && maxTasks > 0 && currentTasks >= 0
    }
  }

  datatype WorkerState = WorkerState(
    workerID: WorkerId,
    address: string,
    resourceTags: seq<Tag>,
    maxTasks: int,
    currentTasks: int,
    available: int,
    lastHeartbeat: Time,
    status: WorkerStatus,
    metrics: WorkerMetrics)
  {
    function LoadRatio(): real {
      if maxTasks == 0 then 1.0 else currentTasks as real / maxTasks as real
    }
  }

  datatype ScheduleRequest = ScheduleRequest(taskID: string, requiredTags: seq<Tag>, maxWaitMS: int) {
    predicate Validate() {
      taskID != ""
    }
  }

  datatype Refusal = InvalidRequest | NoWorker | TimedOut | Canceled

  // Assigned stands for a response whose error text is empty.
  datatype ScheduleResponse = Assigned(workerID: WorkerId, address: string) | Refused(reason: Refusal)

  // Thresholds of the timeout scan.
  datatype Config = Config(suspicious: Time, offline: Time)
}
