// Devices as the lists see them, and the comparison they have by default.
module Devices {
  import opened Common

  // The class NETWORK in the encoding of device.h.
  const NETWORK: int := 2

  // The fields that compareDevice looks at; `private` is the hardware address of a network
  // device.
  datatype Info = Info(cls: int, bus: int, device: Option<string>, driver: Option<string>, private: Option<string>)

  class Device {
    var next: Device?
    const info: Info

    constructor (info: Info)
      ensures this.info == info && next == null
    {
      this.info, next := info, null;
    }

    predicate IsNetwork() { info.cls == NETWORK }
  }

  function At(s: seq<Device>, i: nat): Device? {
    if i < |s| then s[i] else null
  }

  // The nodes of s, in this order, form a null-terminated list starting at head.
  ghost predicate Chain(s: seq<Device>, head: Device?)
    reads s
  {
    head == At(s, 0) && forall i {:trigger s[i].next} :: 0 <= i < |s| ==> s[i].next == At(s, i + 1)
  }

  ghost predicate AllIn(s: seq<Device>, nodes: set<Device>) {
    forall d :: d in s ==> d in nodes
  }

  predicate Both(a: Option<string>, b: Option<string>) { a.Some? && b.Some? }

  // compareDevice: 0 equal, 2 only the driver differs, 1 otherwise.
  function CompareInfo(a: Info, b: Info): int {
    var net := a.cls == NETWORK && b.cls == NETWORK;
    if a.cls != b.cls || a.bus != b.bus then 1
    else if Both(a.device, b.device) && a.device != b.device && net
            && Both(a.private, b.private) && a.private == b.private then 0
    else if Both(a.device, b.device) && a.device != b.device
            && !Bare(a.device.value) && !Bare(b.device.value) then 1
    else if Both(a.driver, b.driver) && a.driver != b.driver then 2
    else if net && Both(a.private, b.private) && a.private != b.private then 1
    else 0
  }

  function CompareDevice(a: Device, b: Device): int { CompareInfo(a.info, b.info) }
}
