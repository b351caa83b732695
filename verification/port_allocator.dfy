/** Choosing the host port of a deployment: an ascending scan of
    8100..8199 for a port that both local addresses can bind and that no
    container publishes, reclaiming ports held by stale containers of this
    service. */
module PortAllocator {
  import opened Wrappers

  /** First port of the scan. */
  const FirstPort: int := 8100
  /** One past the last port of the scan (`range` excludes it). */
  const PortLimit: int := 8200

  const NoPortsMessage: string := "No hay puertos disponibles para el despliegue"

  /** Containers whose name starts with this prefix belong to the service. */
  const ContainerPrefix: string := "dess-container-"

  /** The two addresses a candidate port must bind on. */
  datatype Host = Localhost | AllInterfaces

  /** A host binding as listed by the daemon: `int(HostPort)` either gives a
      number (a missing field reads as 0) or raises. */
  datatype HostBinding = HostPort(value: int) | Unparsable

  /** A running container: its name, the host bindings of each published
      container port in listing order, and whether stopping and removing it
      succeeds. */
  datatype ContainerView = ContainerView(name: string, ports: seq<seq<HostBinding>>, removable: bool)

  /** The daemon's container listing, or a failure to obtain it. */
  datatype DockerListing = ListFailed | Listed(containers: seq<ContainerView>)

  /** One binding together with the container it belongs to. */
  datatype OwnedBinding = OwnedBinding(owner: string, removable: bool, binding: HostBinding)

  /** The verdict of the container check for one port. */
  datatype PortCheck = Free | Reclaimed(owner: string) | Occupied | CheckFailed

  /** All bindings of all containers, in the order the check visits them. */
  function AllBindings(cs: seq<ContainerView>): (bs: seq<OwnedBinding>)
    decreases |cs|
  {
    if |cs| == 0 then [] else ContainerBindings(cs[0], cs[0].ports) + AllBindings(cs[1..])
  }

  function ContainerBindings(c: ContainerView, ports: seq<seq<HostBinding>>): seq<OwnedBinding>
    decreases |ports|
  {
    if |ports| == 0 then []
    else
      seq(|ports[0]|, k requires 0 <= k < |ports[0]| => OwnedBinding(c.name, c.removable, ports[0][k]))
      + ContainerBindings(c, ports[1..])
  }

  /** A binding that ends the check: it cannot be read, or it holds the port. */
  predicate Decides(b: OwnedBinding, port: int) {
    b.binding.Unparsable? || b.binding.value == port
  }

  /** What a deciding binding says about the port. */
  function VerdictOf(b: OwnedBinding): PortCheck {
    if b.binding.Unparsable? then CheckFailed
    else if |ContainerPrefix| <= |b.owner| && b.owner[..|ContainerPrefix|] == ContainerPrefix then
      (if b.removable then Reclaimed(b.owner) else CheckFailed)
    else Occupied
  }

  /** The container check over the bindings: the first deciding binding
      gives the verdict; none deciding means the port is free. */
  function ScanBindings(bs: seq<OwnedBinding>, port: int): (r: PortCheck)
    ensures r == Free <==> forall k | 0 <= k < |bs| :: !Decides(bs[k], port)
    ensures r != Free ==> exists k | 0 <= k < |bs| ::
              Decides(bs[k], port) && r == VerdictOf(bs[k])
              && forall j | 0 <= j < k :: !Decides(bs[j], port)
    decreases |bs|
  {
    if |bs| == 0 then Free
    else if Decides(bs[0], port) then VerdictOf(bs[0])
    else
      var r := ScanBindings(bs[1..], port);
      assert forall k | 1 <= k < |bs| :: bs[k] == bs[1..][k - 1];
      if r == Free then r
      else
        var k :| 0 <= k < |bs[1..]| && Decides(bs[1..][k], port) && r == VerdictOf(bs[1..][k])
                 && forall j | 0 <= j < k :: !Decides(bs[1..][j], port);
        assert forall j | 0 <= j < k + 1 :: !Decides(bs[j], port) by {
          forall j | 0 <= j < k + 1 ensures !Decides(bs[j], port) {
            if j > 0 {
              assert bs[j] == bs[1..][j - 1];
            }
          }
        }
        r
  }

  /** `_is_port_free_in_docker`: a failed listing, an unreadable binding or a
      failed reclaim all count as not free. */
  function CheckPortInDocker(docker: DockerListing, port: int): (r: PortCheck)
    ensures docker.ListFailed? ==> r == CheckFailed
  {
    match docker
    case ListFailed => CheckFailed
    case Listed(cs) => ScanBindings(AllBindings(cs), port)
  }

  predicate IsPortFreeInDocker(docker: DockerListing, port: int) {
    var c := CheckPortInDocker(docker, port);
    c.Free? || c.Reclaimed?
  }

  /** A port the scan accepts: both addresses bind and the container check
      reports it free. */
  predicate Usable(bindable: (Host, int) -> bool, docker: DockerListing, port: int) {
    bindable(Localhost, port) && bindable(AllInterfaces, port) && IsPortFreeInDocker(docker, port)
  }

  /** The reference answer: the least usable port at or above `from`. */
  function LeastUsableFrom(bindable: (Host, int) -> bool, docker: DockerListing, from: int): (r: Result<int, string>)
    requires FirstPort <= from <= PortLimit
    ensures r.Ok? ==> from <= r.value < PortLimit && Usable(bindable, docker, r.value)
    ensures r.Ok? ==> forall q | from <= q < r.value :: !Usable(bindable, docker, q)
    ensures r.Err? ==> r.error == NoPortsMessage
    ensures r.Err? <==> forall q | from <= q < PortLimit :: !Usable(bindable, docker, q)
    decreases PortLimit - from
  {
    if from == PortLimit then Err(NoPortsMessage)
    else if Usable(bindable, docker, from) then Ok(from)
    else LeastUsableFrom(bindable, docker, from + 1)
  }

  /** `_get_available_port`: scan the range in ascending order and return the
      first usable port, or raise when the range is exhausted. */
  method GetAvailablePort(bindable: (Host, int) -> bool, docker: DockerListing) returns (r: Result<int, string>)
    ensures r.Ok? ==> FirstPort <= r.value < PortLimit && Usable(bindable, docker, r.value)
    ensures r.Ok? ==> forall q | FirstPort <= q < r.value :: !Usable(bindable, docker, q)
    ensures r.Err? <==> forall q | FirstPort <= q < PortLimit :: !Usable(bindable, docker, q)
    ensures r.Err? ==> r.error == NoPortsMessage
  {
    var port := FirstPort;
    while port < PortLimit
      invariant FirstPort <= port <= PortLimit
      invariant forall q | FirstPort <= q < port :: !Usable(bindable, docker, q)
    {
      var available := true;
      var hosts := [Localhost, AllInterfaces];
      var h := 0;
      while h < |hosts|
        invariant 0 <= h <= |hosts|
        invariant available
        invariant forall j | 0 <= j < h :: bindable(hosts[j], port)
      {
        if !bindable(hosts[h], port) {
          available := false;
          break;
        }
        h := h + 1;
      }
      assert hosts[0] == Localhost && hosts[1] == AllInterfaces;
      assert available <==> bindable(Localhost, port) && bindable(AllInterfaces, port);
      if available && IsPortFreeInDocker(docker, port) {
        assert Usable(bindable, docker, port);
        return Ok(port);
      }
      port := port + 1;
    }
    return Err(NoPortsMessage);
  }

  /** The loop and the reference definition agree on every input. */
  lemma GetAvailablePortIsLeast(bindable: (Host, int) -> bool, docker: DockerListing, r: Result<int, string>)
    requires r.Ok? ==> FirstPort <= r.value < PortLimit && Usable(bindable, docker, r.value)
    requires r.Ok? ==> forall q | FirstPort <= q < r.value :: !Usable(bindable, docker, q)
    requires r.Err? <==> forall q | FirstPort <= q < PortLimit :: !Usable(bindable, docker, q)
    requires r.Err? ==> r.error == NoPortsMessage
    ensures r == LeastUsableFrom(bindable, docker, FirstPort)
  {
    var s := LeastUsableFrom(bindable, docker, FirstPort);
    assert r.Ok? && s.Ok? ==> r.value <= s.value && s.value <= r.value;
  }

  /** A port published by a container of another application is never
      handed out, however the rest of the listing looks. */
  lemma ForeignHolderBlocksPort(bindable: (Host, int) -> bool, cs: seq<ContainerView>, port: int)
    requires |cs| > 0 && |cs[0].ports| > 0 && |cs[0].ports[0]| > 0
    requires cs[0].ports[0][0] == HostPort(port)
    requires !(|ContainerPrefix| <= |cs[0].name| && cs[0].name[..|ContainerPrefix|] == ContainerPrefix)
    ensures !Usable(bindable, Listed(cs), port)
  {
    var bs := AllBindings(cs);
    assert bs[0] == OwnedBinding(cs[0].name, cs[0].removable, HostPort(port));
  }

  /** A port held only by a stale container of this service is reclaimed and
      counts as free. */
  lemma StaleServiceContainerIsReclaimed(cs: seq<ContainerView>, port: int)
    requires |cs| > 0 && |cs[0].ports| > 0 && |cs[0].ports[0]| > 0
    requires cs[0].ports[0][0] == HostPort(port) && cs[0].removable
    requires |ContainerPrefix| <= |cs[0].name| && cs[0].name[..|ContainerPrefix|] == ContainerPrefix
    ensures CheckPortInDocker(Listed(cs), port) == Reclaimed(cs[0].name)
  {
    var bs := AllBindings(cs);
    assert bs[0] == OwnedBinding(cs[0].name, cs[0].removable, HostPort(port));
  }
}
