/** helpers.go: choosing the host's private management address from the
    instance metadata. Fetching the metadata is a call to the metadata service
    and is taken as an input (its result); `addAddr`, the netlink call that puts
    an address on the loopback device, is an oracle of the agent's environment
    (see the Reconcile module). */
module Helpers {
  import opened Common

  /** One entry of the device's `network.addresses` list. */
  datatype AddressInfo = AddressInfo(
    family: int,
    public: bool,
    management: bool,
    address: string,
    gateway: string)

  /** The selection rule: an IPv4, management-class, non-public address. */
  predicate IsPrivateManagementV4(a: AddressInfo)
  {
    a.family == 4 && a.management && !a.public
  }

  /** Position of the first qualifying address, or |addrs| when there is none. */
  function FirstPrivateIndex(addrs: seq<AddressInfo>): (k: nat)
    ensures k <= |addrs|
    ensures k < |addrs| ==> IsPrivateManagementV4(addrs[k])
    ensures forall j :: 0 <= j < k ==> !IsPrivateManagementV4(addrs[j])
  {
    if addrs == [] then 0
    else if IsPrivateManagementV4(addrs[0]) then 0
    else 1 + FirstPrivateIndex(addrs[1..])
  }

  /** `getPrivateIP`: a failed metadata fetch is passed on unchanged; otherwise
      the first qualifying address in list order, or "No IP found". */
  function GetPrivateIP(metadata: Result<seq<AddressInfo>>): (r: Result<AddressInfo>)
    ensures metadata.Err? ==> r == Err(metadata.error)
    ensures metadata.Ok? && r.Ok? ==>
              IsPrivateManagementV4(r.value) &&
              exists i :: 0 <= i < |metadata.value| && metadata.value[i] == r.value &&
                          forall j :: 0 <= j < i ==> !IsPrivateManagementV4(metadata.value[j])
    ensures metadata.Ok? && r.Err? ==>
              r.error == Message("No IP found") &&
              forall a :: a in metadata.value ==> !IsPrivateManagementV4(a)
    ensures metadata.Ok? ==> (r.Ok? <==> exists a :: a in metadata.value && IsPrivateManagementV4(a))
  {
    match metadata
    case Err(e) => Err(e)
    case Ok(addrs) =>
      var k := FirstPrivateIndex(addrs);
      if k < |addrs| then Ok(addrs[k]) else Err(Message("No IP found"))
  }
}
