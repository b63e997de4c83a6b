/**
 * `getLocalIpAddress`: the address shown to the user for reaching the
 * server. The network interfaces are an input: each interface is its list
 * of addresses, in enumeration order. An enumeration that fails (throws, or
 * yields null) is `None`.
 */
module LocalAddress {
  import opened Wrappers

  datatype InetAddress = InetAddress(isLoopback: bool, hostAddress: string)

  /** The answer when no suitable address exists or the enumeration fails. */
  const Fallback: string := "127.0.0.1"

  /** `String.indexOf(c)`: the index of the first `c` in `s`, or -1 when there is none. */
  function IndexOf(s: string, c: char): (r: int)
    ensures r < 0 <==> c !in s
    ensures r < 0 ==> r == -1
    ensures r >= 0 ==> r < |s| && s[r] == c && c !in s[..r]
  {
    if s == [] then -1
    else if s[0] == c then 0
    else
      var r := IndexOf(s[1..], c);
      if r < 0 then -1
      else
        assert s[..r + 1] == [s[0]] + s[1..][..r];
        r + 1
  }

  /** Not a loopback address and no ':' in its text, i.e. not written as IPv6. */
  predicate Eligible(a: InetAddress) {
    !a.isLoopback && IndexOf(a.hostAddress, ':') < 0
  }

  /** All addresses, interface by interface, each interface's in its own order. */
  function Flatten(interfaces: seq<seq<InetAddress>>): seq<InetAddress> {
    if interfaces == [] then [] else interfaces[0] + Flatten(interfaces[1..])
  }

  /** The host text of the first eligible address of `addrs`, if any. */
  function FirstEligible(addrs: seq<InetAddress>): Option<string> {
    if addrs == [] then None
    else if Eligible(addrs[0]) then Some(addrs[0].hostAddress)
    else FirstEligible(addrs[1..])
  }

  /**
   * The search finds nothing exactly when no address is eligible, and
   * otherwise finds the host text of an eligible address preceded by no
   * eligible one.
   */
  lemma {:induction false} FirstEligibleSpec(addrs: seq<InetAddress>)
    ensures FirstEligible(addrs).None? <==> forall k :: 0 <= k < |addrs| ==> !Eligible(addrs[k])
    ensures FirstEligible(addrs).Some? ==>
      exists k :: 0 <= k < |addrs| && FirstAt(addrs, k) && addrs[k].hostAddress == FirstEligible(addrs).value
  {
    if addrs != [] {
      if Eligible(addrs[0]) {
        assert FirstAt(addrs, 0);
      } else {
        var tail := addrs[1..];
        FirstEligibleSpec(tail);
        assert forall k :: 1 <= k < |addrs| ==> addrs[k] == tail[k - 1];
        if FirstEligible(tail).Some? {
          var k :| 0 <= k < |tail| && FirstAt(tail, k) && tail[k].hostAddress == FirstEligible(tail).value;
          assert FirstAt(addrs, k + 1);
        }
      }
    }
  }

  /** `addrs[k]` is eligible and no address before it is. */
  predicate FirstAt(addrs: seq<InetAddress>, k: nat)
    requires k < |addrs|
  {
    Eligible(addrs[k]) && forall m :: 0 <= m < k ==> !Eligible(addrs[m])
  }

  /** What `getLocalIpAddress` answers for a given enumeration. */
  function LocalIp(interfaces: Option<seq<seq<InetAddress>>>): string {
    match interfaces
    case None => Fallback
    case Some(ifs) =>
      match FirstEligible(Flatten(ifs))
      case Some(host) => host
      case None => Fallback
  }

  /**
   * `getLocalIpAddress`: walks the interfaces and their addresses in order
   * and returns the first eligible address, or the fallback.
   */
  method GetLocalIpAddress(interfaces: Option<seq<seq<InetAddress>>>) returns (ip: string)
    ensures ip == LocalIp(interfaces)
  {
    if interfaces.None? {
      return Fallback;
    }
    var ifs := interfaces.value;
    var i := 0;
    while i < |ifs|
      invariant 0 <= i <= |ifs|
      invariant FirstEligible(Flatten(ifs)) == FirstEligible(Flatten(ifs[i..]))
    {
      var addrs := ifs[i];
      assert ifs[i..][1..] == ifs[i + 1..];
      var j := 0;
      while j < |addrs|
        invariant 0 <= j <= |addrs|
        invariant FirstEligible(Flatten(ifs)) == FirstEligible(addrs[j..] + Flatten(ifs[i + 1..]))
      {
        var rest := addrs[j..] + Flatten(ifs[i + 1..]);
        assert rest[0] == addrs[j] && rest[1..] == addrs[j + 1..] + Flatten(ifs[i + 1..]);
        if !addrs[j].isLoopback && IndexOf(addrs[j].hostAddress, ':') < 0 {
          return addrs[j].hostAddress;
        }
        j := j + 1;
      }
      assert addrs[j..] + Flatten(ifs[i + 1..]) == Flatten(ifs[i + 1..]);
      i := i + 1;
    }
    return Fallback;
  }
}
