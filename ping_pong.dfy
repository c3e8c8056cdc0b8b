/**
 The ping-pong Bloom filter as the server context holds it: two slots in a
 fixed-size array, a fixed-size array of per-slot counters and the index of
 the current slot, all updated in place by `CheckAndSet`. Its abstract value
 is a `PingPongSpec.Filter`, and the ghost field `accepted` records every
 value it has accepted as novel, oldest first.
 */
module PingPong {
  import opened PingPongSpec

  class PingPongBloom {
    const blooms: array<set<Bytes>>
    const bloomCount: array<nat>
    const itemCount: nat
    var current: Index

    ghost var accepted: seq<Bytes>

    /** The abstract value of the filter. */
    ghost function Model(): Filter
      reads this, blooms, bloomCount
      requires blooms.Length == 2 && bloomCount.Length == 2
    {
      Filter(blooms[..], bloomCount[..], itemCount, current)
    }

    /** Object invariant: two slots, two counters, and the window over the accepted values. */
    ghost predicate Valid()
      reads this, blooms, bloomCount
    {
      && blooms.Length == 2 && bloomCount.Length == 2
      && Window(Model(), accepted)
    }

    /** `PingPongBloom::new`: both slots empty, both counters 0, slot 0 current, half the role's entries per slot. */
    constructor (ty: ConfigType)
      ensures Valid() && fresh(blooms) && fresh(bloomCount)
      ensures Model() == Init(ty) && accepted == []
      ensures itemCount == ItemCount(ty)
    {
      var n := if ty.IsLocal() then BF_NUM_ENTRIES_FOR_CLIENT else BF_NUM_ENTRIES_FOR_SERVER;
      n := n / 2;
      blooms := new set<Bytes>[2] [{}, {}];
      bloomCount := new nat[2] [0, 0];
      itemCount := n;
      current := 0;
      accepted := [];
      new;
      assert blooms[..] == [{}, {}] && bloomCount[..] == [0, 0];
    }

    /**
     `check_and_set`: returns true, changing nothing, when `buf` is in either
     slot; otherwise rotates if the current slot is full, inserts `buf` into
     the current slot, counts it and returns false.
     */
    method CheckAndSet(buf: Bytes) returns (r: bool)
      requires Valid()
      modifies this, blooms, bloomCount
      ensures Valid()
      ensures (r, Model()) == PingPongSpec.CheckAndSet(old(Model()), buf)
      ensures accepted == if r then old(accepted) else old(accepted) + [buf]
    {
      ghost var f0 := Model();
      ghost var h0 := accepted;
      ghost var g := PingPongSpec.CheckAndSet(f0, buf).1;
      CheckAndSetKeepsWindow(f0, h0, buf);
      // both slots are queried before either is changed
      for i := 0 to 2
        invariant forall j :: 0 <= j < i ==> buf !in blooms[j]
      {
        if buf in blooms[i] {
          assert Contains(f0, buf);
          return true;
        }
      }
      assert !Contains(f0, buf);

      if bloomCount[current] >= itemCount {
        // the current slot is full: switch to the other one and clear it
        current := (current + 1) % 2;
        bloomCount[current] := 0;
        blooms[current] := {};
      }

      blooms[current] := blooms[current] + {buf};
      bloomCount[current] := bloomCount[current] + 1;
      accepted := accepted + [buf];
      r := false;

      assert blooms[..] == g.blooms && bloomCount[..] == g.bloomCount && current == g.current;
      assert Model() == g;
    }
  }
}
