/**
 Access-control decisions of the server context and its reverse-lookup cache.
 The access-control list itself is loaded elsewhere; here it is a record of
 the four questions the context asks it, each left uninterpreted. The cache
 maps a resolved IP address to whether traffic to it was forwarded (proxied)
 and keeps an entry only while that disagrees with the list's default.
 */
module Acl {

  datatype Option<+T> = None | Some(value: T)

  datatype IpAddr = V4(v4: bv32) | V6(v6: bv128)

  datatype SocketAddr = SocketAddr(ip: IpAddr, port: bv16)

  /** A connection target: a resolved socket address or a domain name with a port. */
  datatype Address = SocketAddress(addr: SocketAddr) | DomainNameAddress(host: string, port: bv16)

  /** The access-control list, as the answers it gives. */
  datatype AccessControl = AccessControl(
    inProxyList: IpAddr -> bool,
    clientBlocked: SocketAddr -> bool,
    outboundBlocked: Address -> bool,
    targetBypassed: Address -> bool)

  /** Whether traffic to `ip` is forwarded when no cache entry says otherwise: everything is proxied without a list. */
  function DefaultForward(acl: Option<AccessControl>, ip: IpAddr): (forward: bool)
    ensures acl.None? ==> forward
    ensures acl.Some? ==> (forward <==> acl.value.inProxyList(ip))
  {
    match acl
    case None => true
    case Some(a) => a.inProxyList(ip)
  }

  /** The cache records only exceptions: every entry disagrees with the default decision for its address. */
  ghost predicate OnlyExceptions(cache: map<IpAddr, bool>, acl: Option<AccessControl>)
  {
    forall ip :: ip in cache ==> cache[ip] != DefaultForward(acl, ip)
  }

  /** The cache's answer for `ip`, if it has one. */
  function Lookup(cache: map<IpAddr, bool>, ip: IpAddr): (r: Option<bool>)
    ensures r.Some? <==> ip in cache
    ensures r.Some? ==> r.value == cache[ip]
  {
    if ip in cache then Some(cache[ip]) else None
  }

  /**
   The cache after recording that traffic to `ip` was (`forward`) or was not
   forwarded: `ip` maps to `forward` exactly when that is an exception to the
   default decision, and is absent otherwise; no other address changes.
   */
  function RecordReverseLookup(cache: map<IpAddr, bool>, acl: Option<AccessControl>, ip: IpAddr, forward: bool)
    : (c: map<IpAddr, bool>)
    ensures ip in c <==> forward != DefaultForward(acl, ip)
    ensures ip in c ==> c[ip] == forward
    ensures forall k :: k != ip ==> (k in c <==> k in cache)
    ensures forall k :: k != ip && k in cache ==> c[k] == cache[k]
  {
    if forward != DefaultForward(acl, ip) then cache[ip := forward] else cache - {ip}
  }

  /** Recording keeps the cache free of entries that merely repeat the default. */
  lemma RecordKeepsOnlyExceptions(cache: map<IpAddr, bool>, acl: Option<AccessControl>, ip: IpAddr, forward: bool)
    requires OnlyExceptions(cache, acl)
    ensures OnlyExceptions(RecordReverseLookup(cache, acl, ip, forward), acl)
  {
  }

  /** Recording the same decision twice is the same as recording it once. */
  lemma RecordIdempotent(cache: map<IpAddr, bool>, acl: Option<AccessControl>, ip: IpAddr, forward: bool)
    ensures var c := RecordReverseLookup(cache, acl, ip, forward);
            RecordReverseLookup(c, acl, ip, forward) == c
  {
  }

  /** The latest record for an address wins: an earlier one leaves no trace. */
  lemma RecordLastWins(cache: map<IpAddr, bool>, acl: Option<AccessControl>, ip: IpAddr, earlier: bool, later: bool)
    ensures RecordReverseLookup(RecordReverseLookup(cache, acl, ip, earlier), acl, ip, later)
         == RecordReverseLookup(cache, acl, ip, later)
  {
  }

  /**
   `check_target_bypassed`: nothing is bypassed without a list; with one, a
   socket-address target whose IP has a cache entry is bypassed exactly when
   the entry says it was not forwarded; every other target gets the list's answer.
   */
  function TargetBypassed(acl: Option<AccessControl>, cache: map<IpAddr, bool>, target: Address): (r: bool)
    ensures acl.None? ==> !r
    ensures acl.Some? && target.SocketAddress? && target.addr.ip in cache ==> r == !cache[target.addr.ip]
    ensures acl.Some? && !(target.SocketAddress? && target.addr.ip in cache) ==> r == acl.value.targetBypassed(target)
  {
    match acl
    case None => false
    case Some(a) =>
      match target
      case SocketAddress(saddr) =>
        (match Lookup(cache, saddr.ip)
         case Some(forward) => !forward
         case None => a.targetBypassed(target))
      case DomainNameAddress(_, _) => a.targetBypassed(target)
  }

  /**
   After a record for `ip`, a bypass check of a socket address on `ip` follows
   the record when it was an exception to the list, and the list otherwise.
   */
  lemma BypassAfterRecord(cache: map<IpAddr, bool>, a: AccessControl, ip: IpAddr, port: bv16, forward: bool)
    ensures var target := SocketAddress(SocketAddr(ip, port));
            var c := RecordReverseLookup(cache, Some(a), ip, forward);
            TargetBypassed(Some(a), c, target) == if forward != a.inProxyList(ip) then !forward else a.targetBypassed(target)
  {
  }

  /**
   Without a list every address is proxied by default, so recording a
   forwarded address leaves no entry and recording a bypassed one leaves `false`.
   */
  lemma SelfPruningWithoutList(cache: map<IpAddr, bool>, ip: IpAddr)
    ensures Lookup(RecordReverseLookup(cache, None, ip, true), ip) == None
    ensures Lookup(RecordReverseLookup(cache, None, ip, false), ip) == Some(false)
  {
  }
}
