# Shadowsocks server context: anti-replay filter, reverse-lookup cache and ACL decisions

This project models the decision logic of the shared server context of
shadowsocks-rust (`shadowsocks-core/src/context.rs`) and proves its
properties in Dafny.

- **The ping-pong Bloom filter** (`PingPongBloom`) is the anti-replay filter.
  It has two Bloom slots used as a two-slot ring buffer, a counter per slot, a
  per-slot capacity `item_count` and the index of the current slot.
  - `PingPongSpec` gives its value model. Each slot is the exact set of nonces
    put into it since its last clear.
  - `PingPong.PingPongBloom` is the class the context holds. It keeps the slots
    and counters in two-element arrays and updates them in place.
  - The ghost field `accepted` records every nonce the filter accepted as novel.
    The invariant `Window` ties each slot to a stretch of that history.
- **The nonce check** `check_nonce_and_set` treats an empty nonce (a cipher
  without one) as always novel. It passes any other nonce to the filter.
  - `NonceGuard.Feed` runs a sequence of such checks in order. This is how the
    filter's lock serialises concurrent callers.
- **The reverse-lookup cache** maps a resolved IP address to whether traffic to
  it was forwarded (proxied). It keeps an entry only while the entry disagrees
  with the access-control list's default decision. A cache hit decides
  `check_target_bypassed`.
- **The running flag** starts true and only ever becomes false.
- **The client and outbound block checks** have permissive defaults when no
  list is configured.

The access-control list is a record of four uninterpreted predicates:

- proxy list;
- client blocked;
- outbound blocked;
- target bypassed.

Files:

- `ping_pong_spec.dfy`: the filter's value model and its invariant lemmas.
- `ping_pong.dfy`: the in-place filter class.
- `nonce_guard.dfy`: the empty-nonce guard and runs of checks.
- `acl.dfy`: addresses, the list, the cache rule and the bypass decision.
- `context.dfy`: the `Context` class.

How many recent nonces the filter is guaranteed to remember follows from its
sizing. The comment at `shadowsocks-core/src/context.rs:59-62` says each of
the two slots holds half the role's total number of entries, `item_count`.
A slot is cleared when it is reused, so only the nonces in the two slots are
remembered. Right after a rotation, the current slot holds one nonce and the
other slot holds `item_count` nonces. The filter therefore keeps at least the
last `item_count + 1` accepted nonces and at most the last `2 * item_count`:

- `WindowMembership` proves that the filter reports exactly the last
  `Span(f)` accepted nonces.
- The same lemma proves that `item_count + 1 <= Span(f) <= 2 * item_count`
  once more than `item_count` nonces have been accepted. Before that,
  `Span(f)` is the whole history.

## Model

| member | source | states |
|---|---|---|
| `PingPongSpec.ItemCount` | shadowsocks-core/src/context.rs:72-78 | the per-slot capacity is half the role's total: 5 000 for a local (client) role, 500 000 for a server |
| `PingPongSpec.Init` | shadowsocks-core/src/context.rs:71-88 | a new filter has both slots empty and both counters 0, uses slot 0, has the role's per-slot capacity and satisfies the window invariant with an empty history |
| `PingPongSpec.CheckAndSet` | shadowsocks-core/src/context.rs:96-119 | reports true exactly when the value is in either slot, and then changes nothing. Otherwise the value ends up in the current slot. Rotation happens exactly when the current counter has reached capacity: it flips `current`, leaves only the value in the new current slot with count 1, and does not touch the other slot or its counter. Without rotation only the current slot grows, by the value, and its count rises by one |
| `PingPongSpec.InsertKeepsWindow` | shadowsocks-core/src/context.rs:113-116 | inserting a novel value into a non-full current slot keeps the window invariant (counters at most capacity and equal to slot sizes; slots hold exactly the latest accepted values) |
| `PingPongSpec.RotateKeepsWindow` | shadowsocks-core/src/context.rs:103-116 | a novel value arriving at a full current slot keeps the window invariant: the old current slot, full, becomes the other slot, and the new current slot holds just the value |
| `PingPongSpec.CheckAndSetKeepsWindow` | shadowsocks-core/src/context.rs:96-119 | every `check_and_set` keeps the window invariant. The history grows by the value exactly when it was novel |
| `PingPongSpec.WindowMembership` | shadowsocks-core/src/context.rs:59-62 | under the invariant, a value is reported present iff it is among the last `Span` accepted values. `Span` is at most twice the per-slot capacity and at least one more than the capacity (or the whole history before the first rotation). The slots together hold at most two slots' worth of values |
| `PingPongSpec.NoFalseNegatives` | shadowsocks-core/src/context.rs:97-101 | no false negatives: a value accepted while fewer than `item_count` values have been accepted after it is still present, and checking it again is a replay that changes nothing |
| `PingPong.PingPongBloom.constructor` | shadowsocks-core/src/context.rs:71-88 | the in-place filter starts as the value model's initial filter for the role, with an empty history and the invariant established |
| `PingPong.PingPongBloom.CheckAndSet` | shadowsocks-core/src/context.rs:96-119 | queries both slots in a loop before changing anything. Its result and the new contents of the slot array, counter array and `current` are exactly those of `PingPongSpec.CheckAndSet`. The invariant is kept and the history grows by `buf` exactly when it was novel |
| `NonceGuard.CheckNonceAndSet` | shadowsocks-core/src/context.rs:341-350 | an empty nonce is never a replay and leaves the filter unchanged. A non-empty nonce gets exactly the `check_and_set` result and state |
| `NonceGuard.Accepted` | shadowsocks-core/src/context.rs:341-350 | a check records nothing or exactly its own nonce. It records the nonce iff the nonce is non-empty and the check reports it as not a replay, which is iff it was in neither slot |
| `NonceGuard.StepKeepsWindow` | shadowsocks-core/src/context.rs:341-350 | one nonce check keeps the window invariant, with the history extended by exactly what that check accepted |
| `NonceGuard.Feed` | shadowsocks-core/src/context.rs:341-350 | a run of nonce checks yields one result per nonce, keeps the capacity, and never records an empty nonce as accepted |
| `NonceGuard.FeedKeepsWindow` | shadowsocks-core/src/context.rs:341-350 | any run of nonce checks keeps the window invariant, with the history extended by the nonces the run accepted |
| `NonceGuard.EmptyNoncesChangeNothing` | shadowsocks-core/src/context.rs:342-346 | any number of empty-nonce checks all report "not a replay" and leave the filter unchanged |
| `NonceGuard.PresentNonceStaysReplay` | shadowsocks-core/src/context.rs:97-101 | once a non-empty nonce is present, any number of further checks of it are replays and leave the filter unchanged |
| `NonceGuard.ExactlyOnceAdmission` | shadowsocks-core/src/context.rs:348-349 | of k >= 1 serialised checks of the same non-empty nonce, the first reports a replay iff the nonce was already present, and every later one reports a replay |
| `NonceGuard.RecentNoncesAreReplays` | shadowsocks-core/src/context.rs:341-350 | starting from a freshly built filter, after any run of checks, each of the last `ItemCount(role)` accepted nonces is reported as a replay by the next check |
| `Acl.DefaultForward` | shadowsocks-core/src/context.rs:371-376 | without a list every address is forwarded. With a list the default is the list's proxy-list answer |
| `Acl.Lookup` | shadowsocks-core/src/context.rs:418 | the cache gives an answer for an address exactly when it has an entry for it, and the answer is that entry |
| `Acl.RecordReverseLookup` | shadowsocks-core/src/context.rs:370-393 | after recording, the cache maps the address to `forward` iff `forward` differs from the default decision. Otherwise the address is absent. Every other address keeps its presence and value |
| `Acl.RecordKeepsOnlyExceptions` | shadowsocks-core/src/context.rs:378-392 | recording keeps the invariant that every cache entry disagrees with the default decision for its address |
| `Acl.RecordIdempotent` | shadowsocks-core/src/context.rs:378-392 | recording the same decision twice leaves the same cache as recording it once |
| `Acl.RecordLastWins` | shadowsocks-core/src/context.rs:378-392 | a later record for an address overrides an earlier one completely |
| `Acl.TargetBypassed` | shadowsocks-core/src/context.rs:407-427 | nothing is bypassed without a list. With a list, a socket-address target whose IP is cached is bypassed iff the entry says "not forwarded". Every other target gets the list's own answer |
| `Acl.BypassAfterRecord` | shadowsocks-core/src/context.rs:414-424 | right after a record for an IP, a bypass check of a socket address on that IP follows the record if it was an exception, and the list otherwise |
| `Acl.SelfPruningWithoutList` | shadowsocks-core/src/context.rs:371-392 | without a list, recording a forwarded address leaves no entry, and recording a bypassed one leaves `false` |
| `ServerContext.Context.constructor` | shadowsocks-core/src/context.rs:221-243 | a new context is running, holds a fresh filter sized for the role with the invariant established, and starts with an empty reverse-lookup cache |
| `ServerContext.Context.ServerRunning` | shadowsocks-core/src/context.rs:329-331 | returns the running flag |
| `ServerContext.Context.SetServerStopped` | shadowsocks-core/src/context.rs:334-336 | afterwards the flag is false and the context invariant still holds. No method of the context other than its constructor may write the flag, so it stays false however often this is called |
| `ServerContext.Context.CheckNonceAndSet` | shadowsocks-core/src/context.rs:341-350 | the result and the new filter state are those of `NonceGuard.CheckNonceAndSet`. An empty nonce gives false and no change. The filter and cache invariants are kept |
| `ServerContext.Context.CheckClientBlocked` | shadowsocks-core/src/context.rs:353-358 | a client is blocked iff a list is configured and it blocks that client |
| `ServerContext.Context.CheckOutboundBlocked` | shadowsocks-core/src/context.rs:361-366 | an outbound address is blocked iff a list is configured and it blocks that address |
| `ServerContext.Context.AddToReverseLookupCache` | shadowsocks-core/src/context.rs:370-393 | updates, removes or inserts the entry so that the new cache is exactly `Acl.RecordReverseLookup` of the old one. The "only exceptions" invariant is kept and nothing else changes |
| `ServerContext.Context.CheckTargetBypassed` | shadowsocks-core/src/context.rs:407-427 | never bypassed without a list. Otherwise it is the `Acl.TargetBypassed` decision against the context's current cache |

## Left out

- Bloom filter internals: `Bloom::new_for_fp_rate` and the error rates `BF_ERROR_RATE_FOR_SERVER` and `BF_ERROR_RATE_FOR_CLIENT` are floating-point sizing of an external crate. Each slot is an exact set, so the model has no false positives, and the false-positive rate is not modelled.
- Time-based expiry of the reverse-lookup cache (3 days) and its least-recently-used bookkeeping are not modelled. They depend on the wall clock and the cache crate. The cache is a plain map, so an entry the model keeps may already have expired in the program. The recency refresh done by a cache read in `check_target_bypassed` is not modelled either.
- DNS resolution (`dns_resolve`, `dns_resolve_impl`, `ServerState`, `create_resolver`, `LocalUpstream`, `local_dns`) is left out. It is asynchronous network I/O and foreign resolver code.
- The deprecated-cipher warning loop in `new_with_state` and the debug timing log in `dns_resolve` only log, so they are left out.
- The list's own evaluation of client blocking, outbound blocking, target bypass and proxy-list membership lives in files that are not part of this model. These are uninterpreted predicates of the address. The outbound and target checks in the program also receive the context and may resolve names; that is not modelled.
- Locks and atomics (the spin lock, the async lock, the atomic running flag with acquire/release ordering) are not modelled. Each critical section is one sequential method.
- The configuration is left out apart from the role and the optional list. This covers config accessors, `config_mut`, `server_config`, `server_config_mut`, `acl`, flow statistics, `new`, `new_shared` and `new_with_state_shared`, which are plumbing around `new_with_state`.
- The configuration type is reduced to `Local | Server`, because only `is_local()` is consulted.
- The cache and bypass logic are modelled with the `local-dns` feature enabled. Without it, `check_target_bypassed` goes straight to the list, which is the cache-miss case here.
- Counters are unbounded naturals rather than `usize`. Under the invariant they never exceed `item_count`, so no wrap-around can occur.
