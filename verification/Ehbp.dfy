/**
 The sealing channel that all clones of a proxy handle share, and the sections
 of code that run under its lock.
 */
module Ehbp {
  import opened Bits
  import opened Common

  type Key = string

  /** A client of the sealing library, bound to the key that it seals to. */
  datatype Client = Client(key: Key)

  /** The part of a ground truth that names a key; `rest` stands for the measurements. */
  datatype GroundTruth = GroundTruth(hpkePublicKey: Option<Key>, rest: int)

  datatype RefreshedState = RefreshedState(hpkePublicKey: Key, groundTruth: Option<GroundTruth>)

  // ---------- from an attestation to a key ----------

  /** A successful attestation of the enclave. */
  datatype Verification = Verification(hpkePublicKey: Option<Key>, rest: int)

  predicate AllZeros(key: Key) {
    forall i :: 0 <= i < |key| ==> key[i] == '0'
  }

  function RequireHpkePublicKey(v: Verification): (key: Option<Key>)
    ensures key.Some? <==>
      v.hpkePublicKey.Some? && exists i :: 0 <= i < |v.hpkePublicKey.value| && v.hpkePublicKey.value[i] != '0'
    ensures key.Some? ==> v.hpkePublicKey == key
  {
    match v.hpkePublicKey
    case Some(key) => if AllZeros(key) then None else Some(key)
    case None => None
  }

  function BuildGroundTruth(v: Verification): GroundTruth {
    GroundTruth(v.hpkePublicKey, v.rest)
  }

  /** The state that a verification establishes; the ground truth names the key. */
  function VerifiedState(v: Verification): (r: Option<RefreshedState>)
    ensures r.Some? ==>
      && r.value.groundTruth.Some?
      && r.value.groundTruth.value.hpkePublicKey == Some(r.value.hpkePublicKey)
      && !AllZeros(r.value.hpkePublicKey)
  {
    match RequireHpkePublicKey(v)
    case Some(key) => Some(RefreshedState(key, Some(BuildGroundTruth(v))))
    case None => None
  }

  // ---------- the channel as a value ----------

  type Generation = u64

  datatype Channel = Channel(
    client: Option<Client>,
    publicKey: Option<Key>,
    rejectedPublicKey: Option<Key>,
    groundTruth: Option<GroundTruth>,
    generation: Generation)
  {
    predicate Active() {
      client.Some?
    }

    /** What a reader of the fields may rely on. */
    predicate Coherent() {
      && (client.Some? <==> publicKey.Some?)
      && (client.Some? ==> client.value.key == publicKey.value)
      && (rejectedPublicKey.Some? ==> !Active())
      && (groundTruth.Some? ==> Active() && groundTruth.value.hpkePublicKey == publicKey)
    }

    function SetActive(refreshed: RefreshedState): Channel {
      var key := refreshed.hpkePublicKey;
      Channel(Some(Client(key)), Some(key), None, refreshed.groundTruth, Next(generation))
    }

    function Clear(): Channel {
      Channel(None, None, None, None, Next(generation))
    }

    function Reject(): Channel {
      Clear().(rejectedPublicKey := publicKey)
    }

    /** The verdict at the end of a refresh, and the channel it leaves. */
    function FinishRefresh(mine: Generation, refreshed: RefreshedState): (Finish, Channel) {
      if generation != mine then (Overtaken, this)
      else if rejectedPublicKey == Some(refreshed.hpkePublicKey) then (SameKey, Clear())
      else (Installed, SetActive(refreshed))
    }

    function VerifiedGroundTruth(): Option<GroundTruth> {
      if client.None? then None else groundTruth
    }
  }

  datatype Finish = Overtaken | SameKey | Installed

  /** `wrapping_add(1)`. */
  function Next(g: Generation): Generation {
    (g + 1) % U64_LIMIT
  }

  const FRESH := Channel(None, None, None, None, 0)

  // ---------- the channel in memory ----------

  class EhbpChannel {
    var client: Option<Client>
    var publicKey: Option<Key>
    var rejectedPublicKey: Option<Key>
    var groundTruth: Option<GroundTruth>
    var generation: Generation

    function View(): Channel
      reads this
    {
      Channel(client, publicKey, rejectedPublicKey, groundTruth, generation)
    }

    constructor ()
      ensures View() == FRESH
    {
      client, publicKey, rejectedPublicKey, groundTruth, generation := None, None, None, None, 0;
    }

    method SetActive(newClient: Client, refreshed: RefreshedState)
      requires newClient.key == refreshed.hpkePublicKey
      modifies this
      ensures View() == old(View()).SetActive(refreshed)
    {
      client := Some(newClient);
      publicKey := Some(refreshed.hpkePublicKey);
      rejectedPublicKey := None;
      groundTruth := refreshed.groundTruth;
      generation := Next(generation);
    }

    method Clear()
      modifies this
      ensures View() == old(View()).Clear()
    {
      client := None;
      publicKey := None;
      rejectedPublicKey := None;
      groundTruth := None;
      generation := Next(generation);
    }

    method Reject()
      modifies this
      ensures View() == old(View()).Reject()
    {
      var rejected := publicKey;
      publicKey := None;
      Clear();
      rejectedPublicKey := rejected;
    }
  }

  // ---------- the proxy handle ----------

  /** `usable` tells the keys that the sealing library accepts. */
  class EhbpProxy {
    const channel: EhbpChannel
    const usable: Key -> bool

    constructor (key: Key, accepts: Key -> bool)
      ensures usable == accepts && fresh(channel)
      ensures channel.View() == if accepts(key) then FRESH.SetActive(RefreshedState(key, None)) else FRESH
    {
      channel := new EhbpChannel();
      usable := accepts;
      new;
      var ok := Rekey(key);
    }

    method NewClient(key: Key) returns (r: Option<Client>)
      ensures r == if usable(key) then Some(Client(key)) else None
    {
      return if usable(key) then Some(Client(key)) else None;
    }

    method InstallState(refreshed: RefreshedState) returns (ok: bool)
      modifies channel
      ensures ok == usable(refreshed.hpkePublicKey)
      ensures channel.View() == if ok then old(channel.View()).SetActive(refreshed) else old(channel.View())
    {
      var client := NewClient(refreshed.hpkePublicKey);
      if client.None? { return false; }
      channel.SetActive(client.value, refreshed);
      return true;
    }

    method Rekey(key: Key) returns (ok: bool)
      modifies channel
      ensures ok == usable(key)
      ensures channel.View() == if ok then old(channel.View()).SetActive(RefreshedState(key, None)) else old(channel.View())
    {
      ok := InstallState(RefreshedState(key, None));
    }

    method Revoke()
      modifies channel
      ensures channel.View() == old(channel.View()).Clear()
    {
      channel.Clear();
    }

    method RejectIfGeneration(generation: Generation) returns (r: Option<Generation>)
      modifies channel
      ensures old(channel.generation) != generation ==> r.None? && channel.View() == old(channel.View())
      ensures old(channel.generation) == generation ==>
        r == Some(Next(generation)) && channel.View() == old(channel.View()).Reject()
    {
      if channel.generation != generation { return None; }
      channel.Reject();
      return Some(channel.generation);
    }

    /** The end of a refresh, from the new client to the release of the channel lock. */
    method FinishRefresh(mine: Generation, refreshed: RefreshedState) returns (finish: Option<Finish>)
      modifies channel
      ensures !usable(refreshed.hpkePublicKey) ==> finish.None? && channel.View() == old(channel.View())
      ensures usable(refreshed.hpkePublicKey) ==>
        finish.Some? && (finish.value, channel.View()) == old(channel.View()).FinishRefresh(mine, refreshed)
    {
      var client := NewClient(refreshed.hpkePublicKey);
      if client.None? { return None; }
      if channel.generation != mine { return Some(Overtaken); }
      if channel.rejectedPublicKey == Some(refreshed.hpkePublicKey) {
        channel.Clear();
        return Some(SameKey);
      }
      channel.SetActive(client.value, refreshed);
      return Some(Installed);
    }

    method VerifiedGroundTruth() returns (r: Option<GroundTruth>)
      ensures r == channel.View().VerifiedGroundTruth()
    {
      if channel.client.None? { return None; }
      return channel.groundTruth;
    }
  }
}
