/** The snapshot types shared by the collector and the page. */
module Model {
  datatype Option<+T> = None | Some(value: T)

  /** CPU in millicores, memory in bytes. */
  datatype Resources = Resources(cpuMillis: int, memBytes: int)

  datatype Allocatable = Allocatable(cpuMillis: int, memBytes: int, diskBytes: int, pods: int)

  datatype Disk = Disk(capacityBytes: int, usedBytes: int, availableBytes: int, live: bool)

  datatype Pod = Pod(uid: string, name: string, namespace: string, requests: Resources,
                     limits: Resources, usage: Resources, hasUsage: bool)

  datatype Node = Node(name: string, ready: bool, roles: seq<string>, allocatable: Allocatable,
                       usage: Resources, hasUsage: bool, disk: Disk, pods: seq<Pod>)

  datatype Reason = NoReason | Disabled | ForbiddenReason | AbsentReason | Unavailable

  datatype Capabilities = Capabilities(metrics: bool, metricsReason: Reason, disk: bool, diskReason: Reason)

  datatype Snapshot = Snapshot(nodes: seq<Node>, capabilities: Capabilities)
}
