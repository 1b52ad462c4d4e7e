/** `RestconfProviderConfig.getDeviceInfo`: the configured devices as a map from "address:port" to device info. */
module ProviderConfig {
  import opened Wrappers
  import opened Counting
  import opened Devices

  const DEFAULT_SSL_PORT := 443
  const DEFAULT_TCP_PORT := 80
  const DEFAULT_IS_TLS := true
  const DEFAULT_ADMIN_STATE_UP := true
  const DEFAULT_API_ROOT := "/restconf"
  const DEFAULT_XML_MEDIA_TYPE := "xml"
  const DEFAULT_JSON_MEDIA_TYPE := "json"

  /** One entry of the "devices" array, with the members it may have. `members` counts all members of the
      entry; whether "mediaTypes" is among them is all that is ever read of that member. */
  datatype DeviceNode = DeviceNode(
    userName: Option<string>, password: Option<string>, ipAddress: Option<string>,
    certificatePath: Option<string>, useTls: Option<bool>, adminUp: Option<bool>,
    apiRoot: Option<string>, port: Option<int>, hasMediaTypes: bool, members: nat)

  /** The text of an address, if it is one. */
  type AddressParser = string -> Option<IpAddress>

  function AddressOf(valueOf: AddressParser, node: DeviceNode): Option<IpAddress> {
    valueOf(node.ipAddress.GetOr(""))
  }

  /** The configured port, else the default one for the transport. */
  function EffectivePort(node: DeviceNode): int {
    if node.port.Some? then node.port.value
    else if node.useTls.GetOr(DEFAULT_IS_TLS) then DEFAULT_SSL_PORT
    else DEFAULT_TCP_PORT
  }

  /** The media types of an entry that lists some are as many empty texts as the entry has members: the
      loop runs over the members of the entry and adds the entry's own text, which is empty. */
  function MediaTypesOf(node: DeviceNode): seq<string> {
    if node.hasMediaTypes then seq(node.members, i => "")
    else [DEFAULT_XML_MEDIA_TYPE, DEFAULT_JSON_MEDIA_TYPE]
  }

  /** An entry without an address, a user name or with an empty API root makes the whole call fail. */
  predicate Rejected(valueOf: AddressParser, node: DeviceNode) {
    || AddressOf(valueOf, node).None?
    || node.userName.GetOr("") == ""
    || node.apiRoot.GetOr(DEFAULT_API_ROOT) == ""
  }

  function Endpoint(valueOf: AddressParser, node: DeviceNode): (IpAddress, int)
    requires !Rejected(valueOf, node)
  {
    (AddressOf(valueOf, node).value, EffectivePort(node))
  }

  /** `info` was made from `node`. */
  ghost predicate Reflects(valueOf: AddressParser, timeout: int, node: DeviceNode, info: RestconfDeviceInfo)
    requires !Rejected(valueOf, node)
    reads info
  {
    && (info.address, info.port) == Endpoint(valueOf, node)
    && info.useTls == node.useTls.GetOr(DEFAULT_IS_TLS)
    && info.socketTimeout == timeout
    && info.userName == node.userName.GetOr("")
    && info.password == node.password.GetOr("")
    && info.certificatePath == node.certificatePath.GetOr("")
    && info.apiRoot == node.apiRoot.GetOr(DEFAULT_API_ROOT)
    && info.mediaTypes == MediaTypesOf(node)
    && info.isAdminUp == node.adminUp.GetOr(DEFAULT_ADMIN_STATE_UP)
    && info.Valid()
  }

  /** A port that is not positive does not get an entry rejected, whatever it is. */
  lemma NegativePortAccepted(valueOf: AddressParser, address: string)
    requires valueOf(address).Some?
    ensures var node := DeviceNode(Some("u"), None, Some(address), None, None, None, None, Some(-1), false, 3);
      !Rejected(valueOf, node) && Endpoint(valueOf, node).1 == -1
  {}

  /** The endpoint of an entry in full: the address, and the port or 443, or 80 where TLS is switched off. */
  lemma EndpointExactlyWhen(valueOf: AddressParser, node: DeviceNode, address: IpAddress, port: int)
    requires !Rejected(valueOf, node)
    ensures Endpoint(valueOf, node) == (address, port)
       <==> && valueOf(if node.ipAddress.Some? then node.ipAddress.value else "") == Some(address)
            && port == match node.port
                       case Some(p) => p
                       case None => if node.useTls == Some(false) then 80 else 443
  {}

  ghost predicate NoneRejected(valueOf: AddressParser, nodes: seq<DeviceNode>) {
    forall i :: 0 <= i < |nodes| ==> !Rejected(valueOf, nodes[i])
  }

  /** No later entry has the same endpoint. */
  ghost predicate IsLast(valueOf: AddressParser, nodes: seq<DeviceNode>, i: nat)
    requires NoneRejected(valueOf, nodes) && i < |nodes|
  {
    forall j :: i < j < |nodes| ==> Endpoint(valueOf, nodes[j]) != Endpoint(valueOf, nodes[i])
  }

  /** Every entry is superseded by, or is, a last one with its endpoint. */
  lemma {:induction false} LastEntry(valueOf: AddressParser, nodes: seq<DeviceNode>, i: nat) returns (last: nat)
    requires NoneRejected(valueOf, nodes) && i < |nodes|
    ensures i <= last < |nodes| && IsLast(valueOf, nodes, last)
    ensures Endpoint(valueOf, nodes[last]) == Endpoint(valueOf, nodes[i])
    decreases |nodes| - i
  {
    if IsLast(valueOf, nodes, i) {
      last := i;
    } else {
      var j :| i < j < |nodes| && Endpoint(valueOf, nodes[j]) == Endpoint(valueOf, nodes[i]);
      last := LastEntry(valueOf, nodes, j);
    }
  }

  ghost function Endpoints(valueOf: AddressParser, nodes: seq<DeviceNode>): set<(IpAddress, int)>
    requires NoneRejected(valueOf, nodes)
  {
    set i | 0 <= i < |nodes| :: Endpoint(valueOf, nodes[i])
  }

  function KeyOf(e: (IpAddress, int)): string { IdText(e.0, e.1) }

  /** The map has one entry per endpoint, filed under its id text and made from the last entry of the
      array with that endpoint. */
  ghost predicate Configures(infos: map<string, RestconfDeviceInfo>, valueOf: AddressParser, timeout: int,
                             nodes: seq<DeviceNode>)
    requires NoneRejected(valueOf, nodes)
    reads infos.Values
  {
    && infos.Keys == Image(Endpoints(valueOf, nodes), KeyOf)
    && forall i :: 0 <= i < |nodes| && IsLast(valueOf, nodes, i) ==> FiledFrom(infos, valueOf, timeout, nodes[i])
  }

  ghost predicate FiledFrom(infos: map<string, RestconfDeviceInfo>, valueOf: AddressParser, timeout: int,
                            node: DeviceNode)
    requires !Rejected(valueOf, node)
    reads infos.Values
  {
    var k := KeyOf(Endpoint(valueOf, node));
    k in infos && Reflects(valueOf, timeout, node, infos[k])
  }

  /** Filing one more device touches no entry with another endpoint. */
  lemma FiledFromOther(infos: map<string, RestconfDeviceInfo>, valueOf: AddressParser, timeout: int,
                       node: DeviceNode, e: (IpAddress, int), info: RestconfDeviceInfo)
    requires !Rejected(valueOf, node) && FiledFrom(infos, valueOf, timeout, node)
    requires Endpoint(valueOf, node) != e
    ensures FiledFrom(infos[KeyOf(e) := info], valueOf, timeout, node)
  {
    var own := Endpoint(valueOf, node);
    SameIdExactlyWhen(own.0, own.1, e.0, e.1);
    var more := infos[KeyOf(e) := info];
    assert KeyOf(own) in more && more[KeyOf(own)] == infos[KeyOf(own)];
  }

  lemma ConfiguresSnoc(infos: map<string, RestconfDeviceInfo>, valueOf: AddressParser, timeout: int,
                       nodes: seq<DeviceNode>, node: DeviceNode, info: RestconfDeviceInfo)
    requires NoneRejected(valueOf, nodes) && Configures(infos, valueOf, timeout, nodes)
    requires !Rejected(valueOf, node) && Reflects(valueOf, timeout, node, info)
    ensures NoneRejected(valueOf, nodes + [node])
    ensures Configures(infos[KeyOf(Endpoint(valueOf, node)) := info], valueOf, timeout, nodes + [node])
  {
    var all, e := nodes + [node], Endpoint(valueOf, node);
    var more := infos[KeyOf(e) := info];
    EndpointsSnoc(valueOf, nodes, node);
    ImageOneMore(Endpoints(valueOf, nodes), e);
    forall i | 0 <= i < |all| && IsLast(valueOf, all, i) ensures FiledFrom(more, valueOf, timeout, all[i]) {
      if i < |nodes| {
        FiledFromOther(infos, valueOf, timeout, nodes[i], e, info);
      } else {
        assert more[KeyOf(e)] == info;
      }
    }
  }

  /** As many ids as endpoints: the id text never merges two devices. */
  lemma IdsCountEndpoints(endpoints: set<(IpAddress, int)>)
    ensures |Image(endpoints, KeyOf)| == |endpoints|
  {
    ImageSize(endpoints, KeyOf);
    forall x, y | x in endpoints && y in endpoints && KeyOf(x) == KeyOf(y) ensures x == y {
      SameIdExactlyWhen(x.0, x.1, y.0, y.1);
    }
  }

  lemma ImageOneMore(endpoints: set<(IpAddress, int)>, e: (IpAddress, int))
    ensures Image(endpoints + {e}, KeyOf) == Image(endpoints, KeyOf) + {KeyOf(e)}
  {}

  lemma EndpointsSnoc(valueOf: AddressParser, nodes: seq<DeviceNode>, node: DeviceNode)
    requires NoneRejected(valueOf, nodes) && !Rejected(valueOf, node)
    ensures NoneRejected(valueOf, nodes + [node])
    ensures Endpoints(valueOf, nodes + [node]) == Endpoints(valueOf, nodes) + {Endpoint(valueOf, node)}
    ensures forall i :: 0 <= i < |nodes| ==>
      (IsLast(valueOf, nodes + [node], i)
       <==> IsLast(valueOf, nodes, i) && Endpoint(valueOf, nodes[i]) != Endpoint(valueOf, node))
  {
    var all := nodes + [node];
    assert forall i :: 0 <= i < |nodes| ==> all[i] == nodes[i];
    assert all[|nodes|] == node;
    forall e | e in Endpoints(valueOf, nodes) ensures e in Endpoints(valueOf, all) {
      var i :| 0 <= i < |nodes| && Endpoint(valueOf, nodes[i]) == e;
      assert Endpoint(valueOf, all[i]) == e;
    }
  }

  /** What is done for one entry of the array; nothing comes back when the entry is refused. */
  method DeviceOf(node: DeviceNode, timeout: int, valueOf: AddressParser) returns (device: Option<RestconfDeviceInfo>)
    ensures device.None? <==> Rejected(valueOf, node)
    ensures device.Some? ==> fresh(device.value) && Reflects(valueOf, timeout, node, device.value)
    ensures device.None? <==> || valueOf(if node.ipAddress.Some? then node.ipAddress.value else "").None?
                              || node.userName in {None, Some("")}
                              || node.apiRoot == Some("")
    ensures device.Some? ==>
      var d := device.value;
      && d.port == (if node.port.Some? then node.port.value else if node.useTls == Some(false) then 80 else 443)
      && (d.useTls <==> node.useTls != Some(false)) && (d.isAdminUp <==> node.adminUp != Some(false))
      && d.apiRoot == (if node.apiRoot.Some? then node.apiRoot.value else "/restconf")
      && Some(d.userName) == node.userName
      && d.password == (if node.password.Some? then node.password.value else "")
      && d.certificatePath == (if node.certificatePath.Some? then node.certificatePath.value else "")
      && (!node.hasMediaTypes ==> d.mediaTypes == ["xml", "json"])
      && (node.hasMediaTypes ==> |d.mediaTypes| == node.members && forall m :: m in d.mediaTypes ==> m == "")
      && Some(d.address) == valueOf(if node.ipAddress.Some? then node.ipAddress.value else "")
  {
    var userName := node.userName.GetOr("");
    var password := node.password.GetOr("");
    var address := valueOf(node.ipAddress.GetOr(""));
    if address.None? {
      return None;
    }
    var certPath := node.certificatePath.GetOr("");
    var tls := node.useTls.GetOr(DEFAULT_IS_TLS);
    var adminUp := node.adminUp.GetOr(DEFAULT_ADMIN_STATE_UP);
    var apiRoot := node.apiRoot.GetOr(DEFAULT_API_ROOT);
    var mediaTypes := [];
    if node.hasMediaTypes {
      for i := 0 to node.members
        invariant mediaTypes == seq(i, j => "")
      {
        mediaTypes := mediaTypes + [""];
      }
    } else {
      mediaTypes := [DEFAULT_XML_MEDIA_TYPE, DEFAULT_JSON_MEDIA_TYPE];
    }
    var port := if node.port.Some? then node.port.value else if tls then DEFAULT_SSL_PORT else DEFAULT_TCP_PORT;
    device := RestconfDeviceInfo.Make(address.value, port, tls, timeout, userName, password, certPath,
                                      apiRoot, mediaTypes, adminUp);
  }

  /** Every device of the array, or none at all when one entry is rejected. `timeout` is the
      application-wide connection timeout. */
  method GetDeviceInfo(devices: Option<seq<DeviceNode>>, timeout: int, valueOf: AddressParser)
    returns (infos: Option<map<string, RestconfDeviceInfo>>)
    ensures devices.None? ==> infos == Some(map[])
    ensures devices.Some? ==> (infos.Some? <==> NoneRejected(valueOf, devices.value))
    ensures devices.Some? && infos.Some? ==>
      && Configures(infos.value, valueOf, timeout, devices.value)
      && |infos.value| == |Endpoints(valueOf, devices.value)|
      && forall k :: k in infos.value ==>
           fresh(infos.value[k]) && k == IdText(infos.value[k].address, infos.value[k].port)
  {
    var found: map<string, RestconfDeviceInfo> := map[];
    if devices.None? {
      return Some(found);
    }
    var nodes := devices.value;
    for i := 0 to |nodes|
      invariant NoneRejected(valueOf, nodes[..i])
      invariant Configures(found, valueOf, timeout, nodes[..i])
      invariant forall k :: k in found ==> fresh(found[k]) && k == IdText(found[k].address, found[k].port)
    {
      TakeOneMore(nodes, i);
      var device := DeviceOf(nodes[i], timeout, valueOf);
      if device.None? {
        return None;
      }
      ConfiguresSnoc(found, valueOf, timeout, nodes[..i], nodes[i], device.value);
      found := found[IdText(device.value.address, device.value.port) := device.value];
    }
    assert nodes[..|nodes|] == nodes;
    IdsCountEndpoints(Endpoints(valueOf, nodes));
    assert |found| == |found.Keys|;
    infos := Some(found);
  }
}
