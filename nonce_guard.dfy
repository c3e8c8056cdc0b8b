/**
 The nonce check of the server context (`check_nonce_and_set`) on the value
 model of the filter, and what a run of such checks does. Every call takes
 the filter's lock for the whole check-and-insert, so concurrent callers see
 the calls one after another; `Feed` is that order of calls.
 */
module NonceGuard {
  import opened PingPongSpec

  /**
   `check_nonce_and_set`: an empty nonce (a cipher without one) is never a
   replay and leaves the filter alone; any other nonce goes to `check_and_set`.
   */
  function CheckNonceAndSet(f: Filter, nonce: Bytes): (r: (bool, Filter))
    ensures nonce == [] ==> r == (false, f)
    ensures nonce != [] ==> r == CheckAndSet(f, nonce)
  {
    if |nonce| == 0 then (false, f) else CheckAndSet(f, nonce)
  }

  /** The nonce a check records as accepted: the nonce itself when it was novel and non-empty, nothing otherwise. */
  function Accepted(f: Filter, nonce: Bytes): (a: seq<Bytes>)
    ensures a == [] || a == [nonce]
    ensures a == [nonce] <==> nonce != [] && !CheckNonceAndSet(f, nonce).0
    ensures a == [nonce] <==> nonce != [] && !Contains(f, nonce)
  {
    if nonce == [] || Contains(f, nonce) then [] else [nonce]
  }

  /** The outcome of a run of nonce checks: each call's result, the final filter, and the nonces accepted as novel. */
  datatype Trace = Trace(replays: seq<bool>, filter: Filter, accepted: seq<Bytes>)

  /** Successive `check_nonce_and_set` calls on `nonces`, first to last, starting from `f`. */
  function Feed(f: Filter, nonces: seq<Bytes>): (t: Trace)
    ensures |t.replays| == |nonces|
    ensures t.filter.itemCount == f.itemCount
    ensures forall y :: y in t.accepted ==> y != []
    decreases |nonces|
  {
    if nonces == [] then
      Trace([], f, [])
    else
      var r := CheckNonceAndSet(f, nonces[0]);
      var rest := Feed(r.1, nonces[1..]);
      Trace([r.0] + rest.replays, rest.filter, Accepted(f, nonces[0]) + rest.accepted)
  }

  /** One nonce check keeps the window invariant, the history growing by what it accepted. */
  lemma StepKeepsWindow(f: Filter, h: seq<Bytes>, x: Bytes)
    requires Window(f, h)
    ensures Window(CheckNonceAndSet(f, x).1, h + Accepted(f, x))
  {
    if Accepted(f, x) == [] {
      assert h + Accepted(f, x) == h;
      if x != [] {
        CheckAndSetKeepsWindow(f, h, x);
      }
    } else {
      CheckAndSetKeepsWindow(f, h, x);
    }
  }

  /** One step of a run: the first check, then the rest of the run from the filter it leaves. */
  lemma FeedStep(f: Filter, nonces: seq<Bytes>)
    requires nonces != []
    ensures var rest := Feed(CheckNonceAndSet(f, nonces[0]).1, nonces[1..]);
            && Feed(f, nonces).filter == rest.filter
            && Feed(f, nonces).accepted == Accepted(f, nonces[0]) + rest.accepted
  {
  }

  /** Concatenation of histories is associative. */
  lemma ConcatAssoc(x: seq<Bytes>, y: seq<Bytes>, z: seq<Bytes>)
    ensures x + (y + z) == (x + y) + z
  {
  }

  /** A run of checks keeps the window invariant, the history growing by the nonces accepted. */
  lemma {:induction false} FeedKeepsWindow(f: Filter, h: seq<Bytes>, nonces: seq<Bytes>)
    requires Window(f, h)
    ensures Window(Feed(f, nonces).filter, h + Feed(f, nonces).accepted)
    decreases |nonces|
  {
    if nonces == [] {
      assert h + Feed(f, nonces).accepted == h;
    } else {
      var g := CheckNonceAndSet(f, nonces[0]).1;
      var a := Accepted(f, nonces[0]);
      var rest := Feed(g, nonces[1..]);
      StepKeepsWindow(f, h, nonces[0]);
      FeedKeepsWindow(g, h + a, nonces[1..]);
      FeedStep(f, nonces);
      ConcatAssoc(h, a, rest.accepted);
    }
  }

  /** Empty nonces, however many, are all novel and leave the filter unchanged. */
  lemma {:induction false} EmptyNoncesChangeNothing(f: Filter, k: nat)
    ensures Feed(f, seq(k, _ => [])) == Trace(seq(k, _ => false), f, [])
  {
    if k > 0 {
      var xs: seq<Bytes> := seq(k, _ => []);
      EmptyNoncesChangeNothing(f, k - 1);
      assert xs[1..] == seq(k - 1, _ => []);
      assert [false] + seq(k - 1, _ => false) == seq(k, _ => false);
    }
  }

  /** Once a nonce is present, any number of further checks of it are replays and change nothing. */
  lemma {:induction false} PresentNonceStaysReplay(f: Filter, x: Bytes, k: nat)
    requires x != [] && Contains(f, x)
    ensures Feed(f, seq(k, _ => x)) == Trace(seq(k, _ => true), f, [])
  {
    if k > 0 {
      var xs: seq<Bytes> := seq(k, _ => x);
      PresentNonceStaysReplay(f, x, k - 1);
      assert xs[1..] == seq(k - 1, _ => x);
      assert [true] + seq(k - 1, _ => true) == seq(k, _ => true);
    }
  }

  /**
   Exactly-once admission: of `k` checks of the same non-empty nonce, only the
   first can report it as novel (and does so exactly when it was absent);
   every later one reports a replay.
   */
  lemma {:induction false} ExactlyOnceAdmission(f: Filter, x: Bytes, k: nat)
    requires x != [] && k >= 1
    ensures Feed(f, seq(k, _ => x)).replays == [Contains(f, x)] + seq(k - 1, _ => true)
  {
    var xs: seq<Bytes> := seq(k, _ => x);
    var r := CheckAndSet(f, x);
    assert xs[1..] == seq(k - 1, _ => x);
    PresentNonceStaysReplay(r.1, x, k - 1);
  }

  /**
   No false negatives from a freshly built filter: after any run of checks,
   each of the last `ItemCount(ty)` nonces accepted as novel is reported as a
   replay by the next check.
   */
  lemma {:induction false} RecentNoncesAreReplays(ty: ConfigType, nonces: seq<Bytes>, k: nat)
    requires k < |Feed(Init(ty), nonces).accepted|
    requires |Feed(Init(ty), nonces).accepted| - k <= ItemCount(ty)
    ensures CheckNonceAndSet(Feed(Init(ty), nonces).filter, Feed(Init(ty), nonces).accepted[k]).0
  {
    var f := Init(ty);
    var t := Feed(f, nonces);
    var h := t.accepted;
    FeedKeepsWindow(f, [], nonces);
    assert [] + h == h;
    assert Window(t.filter, h);
    NoFalseNegatives(t.filter, h, k);
    assert h[k] in h;
  }
}
