/** A verification that runs to its end, on the client and on the channel that it shares with its clones. */
module SecureClients {
  import opened Common
  import opened Ehbp

  class SecureClient {
    var pinnedClient: bool
    var groundTruth: Option<GroundTruth>
    var proxy: EhbpProxy?
    const viaProxy: bool
    const usable: Key -> bool

    constructor (proxied: bool, accepts: Key -> bool)
      ensures viaProxy == proxied && usable == accepts
      ensures Valid() && !IsVerified()
    {
      pinnedClient, groundTruth, proxy, viaProxy, usable := false, None, null, proxied, accepts;
    }

    ghost predicate Valid()
      reads this, if proxy == null then {} else {proxy}
    {
      proxy != null ==> viaProxy && proxy.usable == usable
    }

    predicate IsVerified()
      reads this, if proxy == null then {} else {proxy, proxy.channel}
    {
      pinnedClient && if proxy == null then groundTruth.Some? else proxy.channel.View().VerifiedGroundTruth().Some?
    }

    function GroundTruthNow(): Option<GroundTruth>
      reads this, if proxy == null then {} else {proxy, proxy.channel}
    {
      if !pinnedClient then None
      else if proxy == null then groundTruth
      else proxy.channel.View().VerifiedGroundTruth()
    }

    /** The client is verified exactly when it has a ground truth to show, which takes a pinned client and an active channel. */
    lemma VerifiedExact()
      ensures IsVerified() <==> GroundTruthNow().Some?
      ensures IsVerified() ==> pinnedClient && (proxy != null ==> proxy.channel.View().Active())
    {
    }

    /**
     `attested` is the outcome of the attestation, `pins` whether a client
     pinned to the attested certificate can be built.
     */
    method Verify(attested: Option<Verification>, pins: bool) returns (r: Option<GroundTruth>)
      requires Valid()
      modifies this, if proxy == null then {} else {proxy.channel}
      ensures Valid() && (old(proxy) != null ==> proxy == old(proxy))
      ensures r.Some? <==>
        && attested.Some? && pins
        && (viaProxy ==>
             var st := VerifiedState(attested.value); st.Some? && usable(st.value.hpkePublicKey))
      ensures r.Some? ==> IsVerified() && GroundTruthNow() == r == Some(BuildGroundTruth(attested.value))
      ensures r.Some? && viaProxy ==> proxy != null && proxy.channel.View().Coherent()
      ensures r.Some? && viaProxy ==>
        proxy.channel.client == Some(Client(VerifiedState(attested.value).value.hpkePublicKey))
      ensures r.Some? ==> pinnedClient && groundTruth == if viaProxy then None else r
      ensures r.None? ==> !IsVerified() && GroundTruthNow().None? && groundTruth.None?
      ensures r.None? && old(proxy) != null ==> old(proxy).channel.View() == old(proxy.channel.View()).Clear()
    {
      pinnedClient := false;
      if proxy != null { proxy.Revoke(); }
      groundTruth := None;
      if attested.None? || !pins { return None; }
      var truth := BuildGroundTruth(attested.value);
      if viaProxy {
        var key := RequireHpkePublicKey(attested.value);
        if key.None? { return None; }
        var refreshed := RefreshedState(key.value, Some(truth));
        if proxy != null {
          var ok := proxy.InstallState(refreshed);
          if !ok { return None; }
        } else {
          var created := new EhbpProxy(key.value, usable);
          var ok := created.InstallState(refreshed);
          if !ok { return None; }
          proxy := created;
        }
        pinnedClient := true;
      } else {
        pinnedClient := true;
        groundTruth := Some(truth);
      }
      return Some(truth);
    }
  }
}
