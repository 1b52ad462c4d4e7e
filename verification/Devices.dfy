/** Device identity: the id text "address:port", equality and hashing built on it, and the device itself. */
module Devices {
  import opened Wrappers
  import opened Text
  import opened StateMachines

  /** An IP address, identified with its text; IPv6 texts contain colons. */
  datatype IpAddress = IpAddress(text: string)

  /** The scheme-specific part of a device id. */
  function IdText(address: IpAddress, port: int): string {
    address.text + ":" + Decimal(port)
  }

  /** The id is the text of the address, a colon, and the one numeral that stands for the port. */
  lemma IdExactlyWhen(id: string, address: IpAddress, port: int)
    ensures id == IdText(address, port)
       <==> exists t :: id == address.text + ":" + t && IsDecimal(t) && ReadSigned(t) == port
  {
    DecimalExactlyWhen(port, Decimal(port));
    if t :| id == address.text + ":" + t && IsDecimal(t) && ReadSigned(t) == port {
      DecimalExactlyWhen(port, t);
    }
  }

  /** Two devices have the same id exactly when address and port agree. */
  lemma SameIdExactlyWhen(a: IpAddress, p: int, b: IpAddress, q: int)
    ensures IdText(a, p) == IdText(b, q) <==> a == b && p == q
  {
    if IdText(a, p) == IdText(b, q) {
      DecimalShape(p);
      DecimalShape(q);
      LastCutUnique(a.text, Decimal(p), b.text, Decimal(q), ':');
      DecimalInjective(p, q);
    }
  }

  /** Java's int arithmetic wraps at 32 bits. */
  function Wrap32(n: int): int {
    var m := n % 0x1_0000_0000;
    if m < 0x8000_0000 then m else m - 0x1_0000_0000
  }

  /** `Objects.hash(address, port)` over the address's own hash code. */
  function HashPair(addressHash: int, port: int): int {
    Wrap32(31 * Wrap32(31 + addressHash) + port)
  }

  /** The hash is the 32-bit integer congruent to 31 * (31 + the hash of the address) + port. */
  lemma HashPairMeaning(addressHash: int, port: int)
    ensures -0x8000_0000 <= HashPair(addressHash, port) < 0x8000_0000
    ensures exists k :: HashPair(addressHash, port) == 961 + 31 * addressHash + port + k * 0x1_0000_0000
  {
    var j := WrapIsCongruent(31 + addressHash);
    var k := WrapIsCongruent(31 * Wrap32(31 + addressHash) + port);
    assert HashPair(addressHash, port) == 961 + 31 * addressHash + port + (31 * j + k) * 0x1_0000_0000;
  }

  lemma WrapIsCongruent(n: int) returns (k: int)
    ensures -0x8000_0000 <= Wrap32(n) < 0x8000_0000
    ensures Wrap32(n) == n + k * 0x1_0000_0000
  {
    k := -(n / 0x1_0000_0000);
    if Wrap32(n) < 0 {
      k := k - 1;
    }
  }

  class RestconfDeviceInfo {
    const userName: string
    const password: string
    const certificatePath: string
    const address: IpAddress
    const port: int
    const useTls: bool
    const apiRoot: string
    const socketTimeout: int
    const mediaTypes: seq<string>
    var isAdminUp: bool
    /** Filled in by the first GetDeviceId. */
    var deviceId: Option<string>

    ghost predicate Valid()
      reads this
    {
      deviceId.Some? ==> deviceId.value == IdText(address, port)
    }

    constructor (address: IpAddress, port: int, useTls: bool, socketTimeout: int, userName: string,
                 password: string, certificatePath: string, apiRoot: string, mediaTypes: seq<string>, isAdminUp: bool)
      ensures this.mediaTypes == mediaTypes
      ensures Valid() && deviceId == None && this.isAdminUp == isAdminUp
      ensures this.address == address && this.port == port && this.useTls == useTls
      ensures this.socketTimeout == socketTimeout && this.userName == userName && this.password == password
      ensures this.certificatePath == certificatePath && this.apiRoot == apiRoot
    {
      this.address, this.port, this.useTls, this.socketTimeout := address, port, useTls, socketTimeout;
      this.userName, this.password, this.certificatePath := userName, password, certificatePath;
      this.apiRoot, this.mediaTypes, this.isAdminUp := apiRoot, mediaTypes, isAdminUp;
      deviceId := None;
    }

    /** The constructor with its argument checks: an empty user name or API root is refused. The check of
        the port tests a boxed flag for null, so it lets every port pass. */
    static method Make(address: IpAddress, port: int, useTls: bool, socketTimeout: int, userName: string,
                       password: string, certificatePath: string, apiRoot: string, mediaTypes: seq<string>,
                       isAdminUp: bool)
      returns (info: Option<RestconfDeviceInfo>)
      ensures info.None? <==> userName == "" || apiRoot == ""
      ensures info.Some? ==>
        var i := info.value;
        && fresh(i) && i.Valid() && i.deviceId == None && i.isAdminUp == isAdminUp
        && i.address == address && i.port == port && i.useTls == useTls
        && i.socketTimeout == socketTimeout && i.userName == userName && i.password == password
        && i.certificatePath == certificatePath && i.apiRoot == apiRoot && i.mediaTypes == mediaTypes
    {
      if userName == "" || apiRoot == "" {
        return None;
      }
      var i := new RestconfDeviceInfo(address, port, useTls, socketTimeout, userName, password,
                                      certificatePath, apiRoot, mediaTypes, isAdminUp);
      info := Some(i);
    }

    method GetDeviceId() returns (id: string)
      requires Valid()
      modifies this`deviceId
      ensures Valid() && id == IdText(address, port)
      ensures exists t :: id == address.text + ":" + t && IsDecimal(t) && ReadSigned(t) == port
    {
      if deviceId == None {
        deviceId := Some(IdText(address, port));
      }
      id := deviceId.value;
      IdExactlyWhen(id, address, port);
    }

    predicate EqualTo(other: RestconfDeviceInfo) {
      other.address == address && other.port == port
    }

    function HashCode(hashOf: IpAddress -> int): int {
      HashPair(hashOf(address), port)
    }

    method SetAdminState(setAdminUp: bool)
      modifies this`isAdminUp
      ensures isAdminUp == setAdminUp
    {
      if setAdminUp != isAdminUp {
        isAdminUp := setAdminUp;
      }
    }
  }

  class DefaultRestconfDevice {
    const deviceInfo: RestconfDeviceInfo
    const stateMachine: RestconfDeviceStateMachine

    constructor (deviceInfo: RestconfDeviceInfo)
      ensures this.deviceInfo == deviceInfo
      ensures fresh(stateMachine) && stateMachine.Valid() && stateMachine.history == []
    {
      this.deviceInfo := deviceInfo;
      this.stateMachine := new RestconfDeviceStateMachine();
    }

    method Start()
      requires stateMachine.Valid()
      modifies stateMachine
      ensures stateMachine.Valid() && stateMachine.history == old(stateMachine.history) + [CONNECT]
      ensures stateMachine.currentState == DISCOVERY
    {
      stateMachine.Connect();
    }

    /** `probe` is the outcome of the socket test that only an IDLE device makes. */
    method IsReachable(probe: bool) returns (reachable: bool)
      requires stateMachine.Valid()
      ensures reachable == Reachability(stateMachine.currentState, probe)
      ensures CONNECT !in stateMachine.history ==> reachable == probe
      ensures CONNECT in stateMachine.history ==>
        var since := AfterLast(stateMachine.history, CONNECT);
        reachable <==> ERROR !in since && !Suspended(since)
    {
      ReachableExactlyWhen(stateMachine.history, probe);
      var state := stateMachine.currentState;
      if state == IDLE {
        return probe;
      }
      if state == DISCOVERY || state == POPULATE || state == ACTIVE {
        return true;
      }
      if state == INACTIVE || state == ERROR {
        return false;
      }
      return false;
    }

    /** Compares the printed ids, which decides the pair of address and port. */
    method EqualTo(other: DefaultRestconfDevice) returns (same: bool)
      requires deviceInfo.Valid() && other.deviceInfo.Valid()
      modifies deviceInfo`deviceId, other.deviceInfo`deviceId
      ensures deviceInfo.Valid() && other.deviceInfo.Valid()
      ensures same <==> deviceInfo.EqualTo(other.deviceInfo)
      ensures forall hashOf: IpAddress -> int :: same ==> HashCode(hashOf) == other.HashCode(hashOf)
    {
      var id := deviceInfo.GetDeviceId();
      var otherId := other.deviceInfo.GetDeviceId();
      SameIdExactlyWhen(deviceInfo.address, deviceInfo.port, other.deviceInfo.address, other.deviceInfo.port);
      same := id == otherId;
    }

    function HashCode(hashOf: IpAddress -> int): int {
      deviceInfo.HashCode(hashOf)
    }
  }
}
