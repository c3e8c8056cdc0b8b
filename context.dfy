/**
 The shared server context: the running flag, the nonce filter behind its
 lock, the reverse-lookup cache behind its own lock, and the access-control
 decisions. Each locked section is one method here; the configuration is
 reduced to the role and the optional access-control list.
 */
module ServerContext {
  import opened PingPongSpec
  import PingPong
  import NonceGuard
  import opened Acl

  class Context {
    const acl: Option<AccessControl>
    const noncePpbloom: PingPong.PingPongBloom
    var serverRunning: bool
    var reverseLookupCache: map<IpAddr, bool>

    /** Object invariant: the filter is well formed and the cache holds only exceptions to the list. */
    ghost predicate Valid()
      reads this, noncePpbloom, noncePpbloom.blooms, noncePpbloom.bloomCount
    {
      && noncePpbloom.Valid()
      && OnlyExceptions(reverseLookupCache, acl)
    }

    /** `Context::new_with_state`: running, a fresh filter sized for the role, an empty cache. */
    constructor (configType: ConfigType, acl: Option<AccessControl>)
      ensures Valid()
      ensures fresh(noncePpbloom) && fresh(noncePpbloom.blooms) && fresh(noncePpbloom.bloomCount)
      ensures this.acl == acl
      ensures serverRunning
      ensures noncePpbloom.Model() == Init(configType) && noncePpbloom.accepted == []
      ensures reverseLookupCache == map[]
    {
      this.acl := acl;
      noncePpbloom := new PingPong.PingPongBloom(configType);
      serverRunning := true;
      reverseLookupCache := map[];
    }

    /** `server_running`: the running flag as it stands. */
    method ServerRunning() returns (running: bool)
      ensures running == serverRunning
    {
      running := serverRunning;
    }

    /** `set_server_stopped`: the flag goes to false, and stays false, however often this is called. */
    method SetServerStopped()
      requires Valid()
      modifies this`serverRunning
      ensures Valid()
      ensures !serverRunning
    {
      serverRunning := false;
    }

    /**
     `check_nonce_and_set`: an empty nonce is never a replay and does not touch
     the filter; any other nonce is checked and, if novel, recorded, under the
     filter's lock.
     */
    method CheckNonceAndSet(nonce: Bytes) returns (r: bool)
      requires Valid()
      modifies noncePpbloom, noncePpbloom.blooms, noncePpbloom.bloomCount
      ensures Valid()
      ensures (r, noncePpbloom.Model()) == NonceGuard.CheckNonceAndSet(old(noncePpbloom.Model()), nonce)
      ensures nonce == [] ==> !r && noncePpbloom.accepted == old(noncePpbloom.accepted)
      ensures nonce != [] ==> noncePpbloom.accepted == if r then old(noncePpbloom.accepted) else old(noncePpbloom.accepted) + [nonce]
    {
      if |nonce| == 0 {
        return false;
      }
      r := noncePpbloom.CheckAndSet(nonce);
    }

    /** `check_client_blocked`: never blocked without a list, otherwise the list's answer. */
    function CheckClientBlocked(addr: SocketAddr): (blocked: bool)
      ensures blocked <==> acl.Some? && acl.value.clientBlocked(addr)
    {
      match acl
      case None => false
      case Some(a) => a.clientBlocked(addr)
    }

    /** `check_outbound_blocked`: never blocked without a list, otherwise the list's answer. */
    function CheckOutboundBlocked(addr: Address): (blocked: bool)
      ensures blocked <==> acl.Some? && acl.value.outboundBlocked(addr)
    {
      match acl
      case None => false
      case Some(a) => a.outboundBlocked(addr)
    }

    /**
     `add_to_reverse_lookup_cache`: under the cache's lock, update or remove an
     existing entry for `addr`, or insert a new one, so that the cache keeps
     `addr` only when `forward` is an exception to the list's default.
     */
    method AddToReverseLookupCache(addr: IpAddr, forward: bool)
      requires Valid()
      modifies this`reverseLookupCache
      ensures Valid()
      ensures reverseLookupCache == RecordReverseLookup(old(reverseLookupCache), acl, addr, forward)
    {
      // proxy everything by default
      var isException := forward != match acl
        case None => true
        case Some(a) => a.inProxyList(addr);
      if addr in reverseLookupCache {
        if isException {
          reverseLookupCache := reverseLookupCache[addr := forward];
        } else {
          // an entry that agrees with the list is not worth remembering
          reverseLookupCache := reverseLookupCache - {addr};
        }
      } else if isException {
        reverseLookupCache := reverseLookupCache[addr := forward];
      }
      assert reverseLookupCache == RecordReverseLookup(old(reverseLookupCache), acl, addr, forward);
      RecordKeepsOnlyExceptions(old(reverseLookupCache), acl, addr, forward);
    }

    /** `check_target_bypassed`, consulting the current reverse-lookup cache. */
    function CheckTargetBypassed(target: Address): (bypassed: bool)
      reads this
      ensures acl.None? ==> !bypassed
      ensures bypassed == TargetBypassed(acl, reverseLookupCache, target)
    {
      TargetBypassed(acl, reverseLookupCache, target)
    }
  }
}
