/**
 The value-level model of the anti-replay nonce filter: two membership slots
 used as a two-slot ring buffer (a "ping-pong" Bloom filter). Each Bloom slot
 is modelled as the exact set of byte strings it was given since its last
 clear, so `check` is set membership: the model has the "no false negatives"
 side of a Bloom filter and none of its false positives.
 */
module PingPongSpec {

  type Bytes = seq<bv8>

  /** Total number of entries for the server-side filter (both slots together). */
  const BF_NUM_ENTRIES_FOR_SERVER: nat := 1_000_000

  /** Total number of entries for the client-side filter (both slots together). */
  const BF_NUM_ENTRIES_FOR_CLIENT: nat := 10_000

  /** The deployment role; only whether it is a local (client) role matters here. */
  datatype ConfigType = Local | Server {
    predicate IsLocal() { Local? }
  }

  /** Index of one of the two slots. */
  type Index = i: nat | i < 2

  /** The two Bloom slots. */
  type Slots = s: seq<set<Bytes>> | |s| == 2 witness [{}, {}]

  /** The two per-slot insertion counters. */
  type Counts = s: seq<nat> | |s| == 2 witness [0, 0]

  /** The state of the filter: slots, per-slot counters, per-slot capacity, current slot. */
  datatype Filter = Filter(blooms: Slots, bloomCount: Counts, itemCount: nat, current: Index)

  /** The values at positions `lo` (inclusive) to `hi` (exclusive) of `h`, as a set. */
  ghost function Elems(h: seq<Bytes>, lo: nat, hi: nat): set<Bytes>
    requires lo <= hi <= |h|
    decreases hi - lo
  {
    if lo == hi then {} else Elems(h, lo, hi - 1) + {h[hi - 1]}
  }

  /** Per-slot capacity: half of the role's total number of entries. */
  function ItemCount(ty: ConfigType): (n: nat)
    ensures 2 * n == if ty.IsLocal() then BF_NUM_ENTRIES_FOR_CLIENT else BF_NUM_ENTRIES_FOR_SERVER
    ensures ty.IsLocal() ==> n == 5_000
    ensures !ty.IsLocal() ==> n == 500_000
  {
    var total := if ty.IsLocal() then BF_NUM_ENTRIES_FOR_CLIENT else BF_NUM_ENTRIES_FOR_SERVER;
    total / 2
  }

  /** True when either slot reports `x`; the query half of `check_and_set`. */
  predicate Contains(f: Filter, x: Bytes)
  {
    x in f.blooms[0] || x in f.blooms[1]
  }

  /** The number of values the two slots currently account for. */
  function Span(f: Filter): nat
  {
    f.bloomCount[0] + f.bloomCount[1]
  }

  /**
   The invariant of the filter, relative to the history `h` of every value it
   has accepted as novel, oldest first. The current slot holds exactly the last
   `bloomCount[current]` accepted values, the other slot exactly the
   `bloomCount[1 - current]` values before those; every counter is at most the
   per-slot capacity and equals the size of its slot; and the other slot is
   either full (it has been rotated out at least once, and the current slot
   has since received the value that caused the rotation) or has never been used.
   */
  ghost predicate Window(f: Filter, h: seq<Bytes>)
  {
    var cur := f.current;
    var c := f.bloomCount[cur];
    var o := f.bloomCount[1 - cur];
    && f.itemCount > 0
    && c <= f.itemCount && o <= f.itemCount
    && c + o <= |h|
    && f.blooms[cur] == Elems(h, |h| - c, |h|)
    && f.blooms[1 - cur] == Elems(h, |h| - c - o, |h| - c)
    && |f.blooms[cur]| == c && |f.blooms[1 - cur]| == o
    && ((o == f.itemCount && c >= 1) || (o == 0 && c == |h|))
  }

  /** The filter as the role's constructor builds it. */
  function Init(ty: ConfigType): (f: Filter)
    ensures Window(f, [])
    ensures f.current == 0 && f.itemCount == ItemCount(ty)
    ensures forall x :: !Contains(f, x)
  {
    Filter([{}, {}], [0, 0], ItemCount(ty), 0)
  }

  /**
   `check_and_set`: report whether `x` is in either slot; if not, rotate when
   the current slot is full (flip `current`, clear that slot and reset its
   counter), then insert `x` into the current slot and count it. The first
   component of the result is true when `x` was already present.
   */
  function CheckAndSet(f: Filter, x: Bytes): (r: (bool, Filter))
    ensures r.0 <==> Contains(f, x)
    ensures r.0 ==> r.1 == f
    ensures !r.0 ==> x in r.1.blooms[r.1.current] && Contains(r.1, x)
    ensures r.1.itemCount == f.itemCount
    // rotation happens exactly when the current slot has reached its capacity
    ensures !r.0 ==> (r.1.current != f.current <==> f.bloomCount[f.current] >= f.itemCount)
    // a rotation empties the new current slot before the insertion and leaves the other alone
    ensures !r.0 && r.1.current != f.current ==>
      && r.1.blooms[r.1.current] == {x} && r.1.bloomCount[r.1.current] == 1
      && r.1.blooms[f.current] == f.blooms[f.current]
      && r.1.bloomCount[f.current] == f.bloomCount[f.current]
    // without rotation, only the current slot grows, by exactly `x`
    ensures !r.0 && r.1.current == f.current ==>
      && r.1.blooms[f.current] == f.blooms[f.current] + {x}
      && r.1.bloomCount[f.current] == f.bloomCount[f.current] + 1
      && r.1.blooms[1 - f.current] == f.blooms[1 - f.current]
      && r.1.bloomCount[1 - f.current] == f.bloomCount[1 - f.current]
  {
    if Contains(f, x) then
      (true, f)
    else
      var g :=
        if f.bloomCount[f.current] >= f.itemCount then
          var next: Index := (f.current + 1) % 2;
          f.(current := next, bloomCount := f.bloomCount[next := 0], blooms := f.blooms[next := {}])
        else
          f;
      var cur := g.current;
      (false, g.(blooms := g.blooms[cur := g.blooms[cur] + {x}],
                 bloomCount := g.bloomCount[cur := g.bloomCount[cur] + 1]))
  }

  /** A value is in the set of a range exactly when some position of the range holds it. */
  lemma {:induction false} ElemsMember(h: seq<Bytes>, lo: nat, hi: nat, y: Bytes)
    requires lo <= hi <= |h|
    ensures y in Elems(h, lo, hi) <==> exists i :: lo <= i < hi && h[i] == y
    decreases hi - lo
  {
    if lo < hi {
      ElemsMember(h, lo, hi - 1, y);
      if y == h[hi - 1] {
        assert lo <= hi - 1 < hi && h[hi - 1] == y;
      }
    }
  }

  /** Appending a value to the history leaves the set of the values in an earlier range alone. */
  lemma {:induction false} ElemsAppendRange(h: seq<Bytes>, x: Bytes, lo: nat, hi: nat)
    requires lo <= hi <= |h|
    ensures Elems(h + [x], lo, hi) == Elems(h, lo, hi)
    decreases hi - lo
  {
    if lo < hi {
      ElemsAppendRange(h, x, lo, hi - 1);
      assert (h + [x])[hi - 1] == h[hi - 1];
    }
  }

  /** Appending `x` to the history adds `x` to the set of its last `c` values. */
  lemma ElemsAppendSuffix(h: seq<Bytes>, x: Bytes, c: nat)
    requires c <= |h|
    ensures Elems(h + [x], |h + [x]| - (c + 1), |h + [x]|) == Elems(h, |h| - c, |h|) + {x}
  {
    var h' := h + [x];
    assert h'[|h|] == x;
    ElemsAppendRange(h, x, |h| - c, |h|);
  }

  /** Window, established from its parts for given counter values. */
  lemma WindowIntro(f: Filter, h: seq<Bytes>, c: nat, o: nat)
    requires c == f.bloomCount[f.current] && o == f.bloomCount[1 - f.current]
    requires f.itemCount > 0 && c <= f.itemCount && o <= f.itemCount && c + o <= |h|
    requires f.blooms[f.current] == Elems(h, |h| - c, |h|)
    requires f.blooms[1 - f.current] == Elems(h, |h| - c - o, |h| - c)
    requires |f.blooms[f.current]| == c && |f.blooms[1 - f.current]| == o
    requires (o == f.itemCount && c >= 1) || (o == 0 && c == |h|)
    ensures Window(f, h)
  {
  }

  /** A novel value that fills a non-full current slot keeps the window invariant. */
  lemma {:induction false} InsertKeepsWindow(f: Filter, h: seq<Bytes>, x: Bytes)
    requires Window(f, h) && !Contains(f, x)
    requires f.bloomCount[f.current] < f.itemCount
    ensures Window(CheckAndSet(f, x).1, h + [x])
  {
    var cur := f.current;
    var c := f.bloomCount[cur];
    var o := f.bloomCount[1 - cur];
    var g := CheckAndSet(f, x).1;
    var h' := h + [x];
    ElemsAppendSuffix(h, x, c);
    ElemsAppendRange(h, x, |h| - c - o, |h| - c);
    assert |h'| - (c + 1) - o == |h| - c - o && |h'| - (c + 1) == |h| - c;
    WindowIntro(g, h', c + 1, o);
  }

  /** A novel value arriving when the current slot is full rotates and keeps the window invariant. */
  lemma {:induction false} RotateKeepsWindow(f: Filter, h: seq<Bytes>, x: Bytes)
    requires Window(f, h) && !Contains(f, x)
    requires f.bloomCount[f.current] >= f.itemCount
    ensures Window(CheckAndSet(f, x).1, h + [x])
  {
    var c := f.bloomCount[f.current];
    var g := CheckAndSet(f, x).1;
    var h' := h + [x];
    ElemsAppendSuffix(h, x, 0);
    assert Elems(h, |h|, |h|) == {};
    ElemsAppendRange(h, x, |h| - c, |h|);
    assert |h'| - 1 - c == |h| - c && |h'| - 1 == |h|;
    WindowIntro(g, h', 1, c);
  }

  /** `check_and_set` keeps the window invariant, extending the history by `x` when `x` is novel. */
  lemma {:induction false} CheckAndSetKeepsWindow(f: Filter, h: seq<Bytes>, x: Bytes)
    requires Window(f, h)
    ensures var r := CheckAndSet(f, x); Window(r.1, if r.0 then h else h + [x])
  {
    if !Contains(f, x) {
      if f.bloomCount[f.current] >= f.itemCount {
        RotateKeepsWindow(f, h, x);
      } else {
        InsertKeepsWindow(f, h, x);
      }
    }
  }

  /**
   What the filter reports is exactly the last `Span(f)` accepted values, and
   that span covers at least the last `itemCount` accepted values (or all of
   them, before the first rotation) and never more than two slots' worth.
   */
  lemma {:induction false} WindowMembership(f: Filter, h: seq<Bytes>, x: Bytes)
    requires Window(f, h)
    ensures Span(f) <= |h| && Span(f) <= 2 * f.itemCount
    ensures Span(f) >= f.itemCount + 1 || Span(f) == |h|
    ensures Contains(f, x) <==> exists i :: |h| - Span(f) <= i < |h| && h[i] == x
    ensures |f.blooms[0]| + |f.blooms[1]| <= 2 * f.itemCount
  {
    var cur := f.current;
    var c := f.bloomCount[cur];
    var o := f.bloomCount[1 - cur];
    assert Span(f) == c + o;
    ElemsMember(h, |h| - c, |h|, x);
    ElemsMember(h, |h| - c - o, |h| - c, x);
    if i :| |h| - Span(f) <= i < |h| && h[i] == x {
      if i < |h| - c {
        assert x in f.blooms[1 - cur];
      } else {
        assert x in f.blooms[cur];
      }
    }
  }

  /**
   No false negatives: a value accepted at position `k` of the history is
   still reported present while fewer than `itemCount` values have been
   accepted after it, so a further `check_and_set` on it is a replay.
   */
  lemma {:induction false} NoFalseNegatives(f: Filter, h: seq<Bytes>, k: nat)
    requires Window(f, h)
    requires k < |h| && |h| - k <= f.itemCount
    ensures Contains(f, h[k])
    ensures CheckAndSet(f, h[k]) == (true, f)
  {
    WindowMembership(f, h, h[k]);
  }
}
