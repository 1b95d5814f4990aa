/** Choosing the peer's own listening port. */
module Ports {
  import opened Common

  /** One past the largest port number. */
  const PortLimit: int := 0x1_0000

  /** `get_next_available_port`: the first port from `initialPort` up to
      2^16 - 1 for which `available` (the operating-system probe
      `check_port_available`) holds, or None (the source's `False`) when
      there is none. */
  method NextAvailablePort(initialPort: int, available: int -> bool) returns (r: Option<int>)
    ensures r.Some? ==> initialPort <= r.value < PortLimit && available(r.value)
    ensures r.Some? ==> forall j :: initialPort <= j < r.value ==> !available(j)
    ensures r.None? <==> forall j :: initialPort <= j < PortLimit ==> !available(j)
  {
    var i := initialPort;
    while i < PortLimit
      invariant initialPort <= i
      invariant forall j :: initialPort <= j < i ==> !available(j)
    {
      if available(i) {
        return Some(i);
      }
      i := i + 1;
    }
    return None;
  }
}
