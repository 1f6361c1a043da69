/** Listener ports of egress proxies: proxy/factory.go fills the missing ones from a fixed range. */
module ProxyPorts {
  import opened Wrappers

  const START := 50001
  const END := 51000 // exclusive

  /** A proxy of the McpBridge spec. The ports are uint32; a listener port of 0 is not set. */
  datatype ProxyConfig = ProxyConfig(
    proxyType: string, name: string, serverAddress: string, serverPort: nat, listenerPort: nat, connectTimeout: nat)

  /** Renders the Envoy filter of a proxy; None for a type without a builder. */
  type Renderer = ProxyConfig -> Option<string>

  datatype ProxyWrapper = ProxyWrapper(proxyName: string, listenerPort: nat, envoyFilter: string)

  // ---- Filling, as a function of the ports ----

  function Ports(proxies: seq<ProxyConfig>): (r: seq<nat>)
    ensures |r| == |proxies| && forall i | 0 <= i < |r| :: r[i] == proxies[i].listenerPort
  {
    seq(|proxies|, i requires 0 <= i < |proxies| => proxies[i].listenerPort)
  }

  function Used(ports: seq<nat>): set<nat> { set p | p in ports && p > 0 }

  /** The lowest free port from `port` on, END when the range is used up. */
  function FirstFree(used: set<nat>, port: nat): (r: nat)
    requires port <= END
    ensures port <= r <= END && (r < END ==> r !in used)
    ensures forall p | port <= p < r :: p in used
    decreases END - port
  {
    if port == END || port !in used then port else FirstFree(used, port + 1)
  }

  /** The ports once the first n proxies have been gone through. */
  function Filled(ports: seq<nat>, n: nat): (r: seq<nat>)
    requires n <= |ports|
    ensures |r| == |ports| && r[n..] == ports[n..]
  {
    if n == 0 then ports
    else
      var before := Filled(ports, n - 1);
      assert before[n - 1] == before[n - 1..][0];
      var port := FirstFree(Used(before), START);
      if before[n - 1] > 0 || port == END then before else before[n - 1 := port]
  }

  function Fill(ports: seq<nat>): (r: seq<nat>)
    ensures |r| == |ports|
  {
    Filled(ports, |ports|)
  }

  predicate InRange(port: nat) { START <= port < END }

  function Range(): set<nat> { set p: nat | START <= p < END && InRange(p) }

  function Free(ports: seq<nat>): set<nat> { Range() - Used(ports) }

  function Unset(ports: seq<nat>): nat {
    if ports == [] then 0 else Unset(ports[..|ports| - 1]) + if ports[|ports| - 1] == 0 then 1 else 0
  }

  function Min(a: nat, b: nat): nat { if a < b then a else b }

  // ---- What filling does ----

  lemma {:induction false} UnsetUpdate(ports: seq<nat>, i: nat, port: nat)
    requires i < |ports| && ports[i] == 0 && port > 0
    ensures Unset(ports[i := port]) == Unset(ports) - 1
  {
    var n := |ports| - 1;
    if i < n {
      assert ports[i := port][..n] == ports[..n][i := port];
      UnsetUpdate(ports[..n], i, port);
    } else {
      assert ports[i := port][..n] == ports[..n];
    }
  }

  lemma UsedUpdate(ports: seq<nat>, i: nat, port: nat)
    requires i < |ports| && ports[i] == 0 && port > 0
    ensures Used(ports[i := port]) == Used(ports) + {port}
  {
    var more := ports[i := port];
    forall p | p in Used(ports) ensures p in Used(more) {
      var j :| 0 <= j < |ports| && ports[j] == p;
      assert more[j] == p;
    }
    assert more[i] == port;
  }

  lemma InUse(ports: seq<nat>)
    ensures forall j | 0 <= j < |ports| && ports[j] > 0 :: ports[j] in Used(ports)
  {
  }

  /** Every port set before is kept, and every port set now is new: in range, preset nowhere, used once. */
  lemma {:induction false} PresetsKept(ports: seq<nat>, n: nat)
    requires n <= |ports|
    ensures var r := Filled(ports, n);
            forall i | 0 <= i < |ports| ::
              && (ports[i] > 0 ==> r[i] == ports[i])
              && (ports[i] == 0 && r[i] > 0 ==>
                    && i < n && 50001 <= r[i] < 51000 && r[i] !in ports
                    && forall j | 0 <= j < |ports| && j != i :: r[j] != r[i])
    ensures Used(ports) <= Used(Filled(ports, n))
  {
    if n > 0 {
      hide Used, FirstFree;
      PresetsKept(ports, n - 1);
      var before := Filled(ports, n - 1);
      var port := FirstFree(Used(before), START);
      assert before[n - 1] == ports[n - 1];
      if before[n - 1] == 0 && port < END {
        UsedUpdate(before, n - 1, port);
        InUse(before);
      }
    }
  }

  /** A port set now is the smallest one of the range that was neither preset nor set before it. */
  lemma {:induction false} SmallestFree(ports: seq<nat>, n: nat, i: nat, p: nat)
    requires n <= |ports| && i < n && ports[i] == 0
    ensures var r := Filled(ports, n);
            (if r[i] > 0 then 50001 <= p < r[i] else 50001 <= p < 51000) ==> p in ports || p in r[..i]
  {
    hide FirstFree;
    var before := Filled(ports, n - 1);
    var r := Filled(ports, n);
    if i < n - 1 {
      SmallestFree(ports, n - 1, i, p);
      assert before[..i] == r[..i];
    } else {
      assert before[i] == before[i..][0] == ports[i];
      assert before == before[..i] + ports[i..] && before[..i] == r[..i];
      if p in Used(before) { assert p in before[..i] || p in ports[i..]; }
    }
  }

  /** Taking the first free port leaves one free port less; there is none only if the range is used up. */
  lemma FreeUpdate(ports: seq<nat>, i: nat)
    requires i < |ports| && ports[i] == 0
    ensures var port := FirstFree(Used(ports), START);
            && (port == END <==> Free(ports) == {})
            && (port < END ==> |Free(ports[i := port])| == |Free(ports)| - 1)
  {
    hide Used;
    var port := FirstFree(Used(ports), START);
    if port < END {
      UsedUpdate(ports, i, port);
      assert port in Free(ports);
      assert Free(ports[i := port]) == Free(ports) - {port};
    } else {
      assert Free(ports) == {};
    }
  }

  /** Each proxy gone through that is still unset means that the range is used up. */
  lemma {:induction false} Counted(ports: seq<nat>, n: nat)
    requires n <= |ports|
    ensures var r := Filled(ports, n);
            && Unset(ports) - Unset(r) == |Free(ports)| - |Free(r)|
            && (Free(r) == {} || forall i | 0 <= i < n :: r[i] > 0)
  {
    if n > 0 {
      hide Used, Free, FirstFree, Unset;
      Counted(ports, n - 1);
      var before := Filled(ports, n - 1);
      var port := FirstFree(Used(before), START);
      assert before[n - 1] == before[n - 1..][0];
      if before[n - 1] == 0 {
        FreeUpdate(before, n - 1);
        if port < END { UnsetUpdate(before, n - 1, port); }
      }
    }
  }

  lemma {:induction false} NoneUnset(ports: seq<nat>)
    ensures Unset(ports) == 0 <==> forall i | 0 <= i < |ports| :: ports[i] > 0
  {
    if ports != [] {
      NoneUnset(ports[..|ports| - 1]);
    }
  }

  /** Exactly as many ports are assigned as there are proxies without one and free ports for them. */
  lemma AssignsAllItCan(ports: seq<nat>)
    ensures Unset(ports) - Unset(Fill(ports)) == Min(Unset(ports), |Free(ports)|)
    ensures Fill(ports) == ports <==> Unset(ports) == 0 || Free(ports) == {}
  {
    Counted(ports, |ports|);
    NoneUnset(Fill(ports));
    assert Free(Fill(ports)) == {} ==> |Free(Fill(ports))| == 0;
    if Unset(ports) == 0 || Free(ports) == {} { FillsNothing(ports, |ports|); }
  }

  lemma {:induction false} FillsNothing(ports: seq<nat>, n: nat)
    requires n <= |ports| && (Unset(ports) == 0 || Free(ports) == {})
    ensures Filled(ports, n) == ports
  {
    if n > 0 {
      FillsNothing(ports, n - 1);
      NoneUnset(ports);
      var port := FirstFree(Used(ports), START);
      assert port < END ==> port in Free(ports);
    }
  }

  /** A second filling changes nothing, so a spec saved after filling is not filled and saved again. */
  lemma FillTwice(ports: seq<nat>)
    ensures Fill(Fill(ports)) == Fill(ports)
  {
    Counted(ports, |ports|);
    NoneUnset(Fill(ports));
    AssignsAllItCan(Fill(ports));
  }

  // ---- The code ----

  method NeedToFillProxyListenerPorts(proxies: array<ProxyConfig>) returns (need: bool)
    ensures need <==> Unset(Ports(proxies[..])) > 0
  {
    NoneUnset(Ports(proxies[..]));
    for i := 0 to proxies.Length
      invariant forall j | 0 <= j < i :: proxies[j].listenerPort > 0
    {
      if proxies[i].listenerPort <= 0 {
        assert Ports(proxies[..])[i] == 0;
        return true;
      }
    }
    return false;
  }

  /** Nothing but listener ports changes, and those as Fill says. */
  method FillProxyListenerPorts(proxies: array<ProxyConfig>) returns (filled: bool)
    modifies proxies
    ensures Ports(proxies[..]) == Fill(old(Ports(proxies[..])))
    ensures forall i | 0 <= i < proxies.Length ::
              proxies[i] == old(proxies[i]).(listenerPort := proxies[i].listenerPort)
    ensures filled <==> proxies[..] != old(proxies[..])
  {
    hide FirstFree;
    filled := false;
    var usedPorts := {};
    ghost var was := Ports(proxies[..]);
    for i := 0 to proxies.Length
      invariant usedPorts == Used(was[..i])
    {
      assert was[..i + 1] == was[..i] + [was[i]];
      if proxies[i].listenerPort > 0 {
        usedPorts := usedPorts + {proxies[i].listenerPort};
      }
    }
    assert was[..|was|] == was;
    for i := 0 to proxies.Length
      invariant Ports(proxies[..]) == Filled(was, i) && usedPorts == Used(Filled(was, i))
      invariant forall j | 0 <= j < proxies.Length ::
                  proxies[j] == old(proxies[j]).(listenerPort := proxies[j].listenerPort)
      invariant filled <==> proxies[..] != old(proxies[..])
      invariant forall j | i <= j < proxies.Length :: proxies[j] == old(proxies[j])
    {
      ghost var before := Ports(proxies[..]);
      if proxies[i].listenerPort > 0 {
        continue;
      }
      var port := FindFree(usedPorts);
      if port < END {
        UsedUpdate(before, i, port);
        proxies[i] := proxies[i].(listenerPort := port);
        assert Ports(proxies[..]) == before[i := port];
        usedPorts := usedPorts + {port};
        filled := true;
        assert proxies[..][i] != old(proxies[..])[i];
      }
    }
  }

  /** The inner loop: the first port of the range that is not in use. */
  method FindFree(usedPorts: set<nat>) returns (port: nat)
    ensures port == FirstFree(usedPorts, START)
  {
    port := START;
    while port < END
      invariant START <= port <= END && FirstFree(usedPorts, port) == FirstFree(usedPorts, START)
    {
      if port !in usedPorts {
        return;
      }
      port := port + 1;
    }
  }

  /** BuildProxyWrapper: the wrapper, if the addresses and ports are in range and the type has a builder. */
  function BuildProxyWrapper(patches: Renderer, config: ProxyConfig): Option<ProxyWrapper> {
    if |config.serverAddress| == 0 || config.serverPort <= 0 || config.serverPort > 65535
       || config.listenerPort <= 0 || config.listenerPort > 65535 then None
    else
      var envoyFilter := patches(config);
      if envoyFilter.None? then None
      else Some(ProxyWrapper(config.name, config.listenerPort, envoyFilter.value))
  }

  /** After filling, a proxy that had no port is turned down for its port exactly if it got none. */
  /** A wrapper is built exactly for an address and two ports in range, if rendering succeeds; what it carries. */
  lemma BuildsIff(patches: Renderer, config: ProxyConfig)
    ensures BuildProxyWrapper(patches, config).Some?
            <==> config.serverAddress != "" && 1 <= config.serverPort < 65536 && 1 <= config.listenerPort < 65536
                 && patches(config).Some?
    ensures BuildProxyWrapper(patches, config).Some? ==>
              var w := BuildProxyWrapper(patches, config).value;
              && w.proxyName == config.name && w.listenerPort == config.listenerPort
              && w.envoyFilter == patches(config).value
  {
  }

  lemma FilledBuilds(patches: Renderer, ports: seq<nat>, i: nat, config: ProxyConfig)
    requires i < |ports| && ports[i] == 0
    requires config.serverAddress != "" && 0 < config.serverPort <= 65535
    requires config.listenerPort == Fill(ports)[i] && patches(config).Some?
    ensures BuildProxyWrapper(patches, config).Some? <==> config.listenerPort > 0
    ensures Unset(ports) <= |Free(ports)| ==> BuildProxyWrapper(patches, config).Some?
  {
    PresetsKept(ports, |ports|);
    AssignsAllItCan(ports);
    NoneUnset(Fill(ports));
  }
}
