/** Properties of the hazard registry across operations: what a store to one slot does to
    the snapshot, the "idle slots publish nothing" invariant, and slot recycling. */
module RegistryProperties {
  import opened Hazard

  /** `q` is a non-null pointer that some slot other than slot `i` publishes. */
  ghost predicate PublishedElsewhere(b: Bag, i: nat, q: Ptr) {
    q != NULL && exists j :: 0 <= j < |b.slots| && j != i && b.slots[j].hazard == q
  }

  /** Changing one slot changes the snapshot only through that slot: afterwards a pointer
      is in `all_hazards` iff the changed slot now publishes it or another slot already did. */
  lemma SnapshotAfterSlotChange(b: Bag, c: Bag, i: nat)
    requires i < |b.slots| && SameExcept(b.slots, c.slots, i)
    ensures forall q :: q in AllHazards(c) <==>
      (q != NULL && q == c.slots[i].hazard) || PublishedElsewhere(b, i, q)
  {
    forall q
      ensures q in AllHazards(c) <==>
        (q != NULL && q == c.slots[i].hazard) || PublishedElsewhere(b, i, q)
    {
      if q in AllHazards(c) && q != c.slots[i].hazard {
        var j :| 0 <= j < |c.slots| && c.slots[j].hazard == q;
        assert b.slots[j].hazard == q;
      }
      if PublishedElsewhere(b, i, q) {
        var j :| 0 <= j < |b.slots| && j != i && b.slots[j].hazard == q;
        assert c.slots[j].hazard == q;
      }
    }
  }

  /** Leasing a slot never changes the snapshot: a recycled slot keeps its value and a new
      slot is null. */
  lemma AcquireKeepsSnapshot(b: Bag)
    ensures AllHazards(AcquireSlot(b).bag) == AllHazards(b)
  {
    var r := AcquireSlot(b);
    if r.slot < |b.slots| {
      SnapshotAfterSlotChange(b, r.bag, r.slot);
      forall q | q in AllHazards(b) ensures q in AllHazards(r.bag) {
        var j :| 0 <= j < |b.slots| && b.slots[j].hazard == q;
        if j != r.slot {
          assert PublishedElsewhere(b, r.slot, q);
        }
      }
    } else {
      forall q | q in AllHazards(r.bag) ensures q in AllHazards(b) {
        var j :| 0 <= j < |r.bag.slots| && r.bag.slots[j].hazard == q;
        assert j < |b.slots| && b.slots[j].hazard == q;
      }
      forall q | q in AllHazards(b) ensures q in AllHazards(r.bag) {
        var j :| 0 <= j < |b.slots| && b.slots[j].hazard == q;
        assert r.bag.slots[j] == b.slots[j];
      }
    }
  }

  /** On a registry whose idle slots publish nothing, a fresh lease publishes nothing and the
      invariant still holds. */
  lemma AcquireKeepsIdle(b: Bag)
    requires Idle(b)
    ensures Idle(AcquireSlot(b).bag)
    ensures AcquireSlot(b).bag.slots[AcquireSlot(b).slot].hazard == NULL
  {
  }

  /** A change to one slot keeps the invariant when that slot ends up leased or null. */
  lemma SlotChangeKeepsIdle(b: Bag, c: Bag, i: nat)
    requires Idle(b) && i < |b.slots| && SameExcept(b.slots, c.slots, i)
    requires c.slots[i].active || c.slots[i].hazard == NULL
    ensures Idle(c)
  {
  }

  /** The number of slots no shield leases. */
  function InactiveCount(slots: seq<Slot>): nat {
    if |slots| == 0 then 0
    else (if slots[0].active then 0 else 1) + InactiveCount(slots[1..])
  }

  /** No slot is free for recycling iff every slot is leased. */
  lemma {:induction false} InactiveCountZero(slots: seq<Slot>)
    ensures InactiveCount(slots) == 0 <==> forall i :: 0 <= i < |slots| ==> slots[i].active
  {
    if |slots| > 0 {
      InactiveCountZero(slots[1..]);
      assert forall i :: 1 <= i < |slots| ==> slots[i] == slots[1..][i - 1];
    }
  }

  /** When every slot is free, all of them count. */
  lemma {:induction false} InactiveCountAllFree(slots: seq<Slot>)
    requires forall i :: 0 <= i < |slots| ==> !slots[i].active
    ensures InactiveCount(slots) == |slots|
  {
    if |slots| > 0 {
      InactiveCountAllFree(slots[1..]);
    }
  }

  /** Replacing one slot changes the count by that slot's contribution only. */
  lemma {:induction false} InactiveCountUpdate(slots: seq<Slot>, i: nat, s: Slot)
    requires i < |slots|
    ensures InactiveCount(slots[i := s]) + (if slots[i].active then 0 else 1)
         == InactiveCount(slots) + (if s.active then 0 else 1)
  {
    if i == 0 {
      assert slots[i := s][1..] == slots[1..];
    } else {
      InactiveCountUpdate(slots[1..], i - 1, s);
      assert slots[i := s][1..] == slots[1..][i - 1 := s];
    }
  }

  /** Two slot sequences that differ in one slot have counts that differ by that slot only. */
  lemma InactiveCountSameExcept(a: seq<Slot>, c: seq<Slot>, i: nat)
    requires i < |a| && SameExcept(a, c, i)
    ensures InactiveCount(c) + (if a[i].active then 0 else 1)
         == InactiveCount(a) + (if c[i].active then 0 else 1)
  {
    assert c == a[i := c[i]];
    InactiveCountUpdate(a, i, c[i]);
  }

  /** `acquire_slot` with a free slot available recycles one: the chain keeps its length and
      one fewer slot is free. */
  lemma AcquireRecycles(b: Bag)
    requires InactiveCount(b.slots) > 0
    ensures |AcquireSlot(b).bag.slots| == |b.slots|
    ensures AcquireSlot(b).slot < |b.slots|
    ensures InactiveCount(AcquireSlot(b).bag.slots) == InactiveCount(b.slots) - 1
  {
    InactiveCountZero(b.slots);
    var r := AcquireSlot(b);
    InactiveCountSameExcept(b.slots, r.bag.slots, r.slot);
  }

  /** Dropping a live shield makes exactly one more slot free. */
  lemma ReleaseFreesOne(b: Bag, sh: Shield)
    requires sh.slot < |b.slots| && b.slots[sh.slot].active
    ensures |Release(b, sh).slots| == |b.slots|
    ensures InactiveCount(Release(b, sh).slots) == InactiveCount(b.slots) + 1
  {
    InactiveCountSameExcept(b.slots, Release(b, sh).slots, sh.slot);
  }

  /** `m` successive `Shield::new` calls whose shields all stay alive. */
  function AcquireMany(b: Bag, m: nat): (r: (Bag, seq<Shield>))
    ensures |r.1| == m
    ensures |b.slots| <= |r.0.slots|
    ensures forall k :: 0 <= k < m ==> r.1[k].slot < |r.0.slots| && r.0.slots[r.1[k].slot].active
    ensures forall k, l :: 0 <= k < l < m ==> r.1[k].slot != r.1[l].slot
    ensures forall k :: 0 <= k < m ==> r.1[k].slot >= |b.slots| || !b.slots[r.1[k].slot].active
    ensures forall j :: 0 <= j < |b.slots| && b.slots[j].active ==> r.0.slots[j] == b.slots[j]
    decreases m
  {
    if m == 0 then (b, [])
    else
      var b1, sh := NewShield(b).0, NewShield(b).1;
      var r1 := AcquireMany(b1, m - 1);
      LeaseDistinct(b, b1, sh, r1.0, r1.1);
      (r1.0, [sh] + r1.1)
  }

  /** The inductive step of `AcquireMany`'s contract: a shield just leased from `b` and the
      shields leased afterwards hold distinct, leased slots, each free in `b` or new. */
  lemma LeaseDistinct(b: Bag, b1: Bag, sh: Shield, b2: Bag, rest: seq<Shield>)
    requires sh.slot < |b1.slots| && b1.slots[sh.slot].active && |b.slots| <= |b1.slots|
    requires sh.slot < |b.slots| ==> !b.slots[sh.slot].active
    requires forall j :: 0 <= j < |b.slots| && j != sh.slot ==> b1.slots[j] == b.slots[j]
    requires |b1.slots| <= |b2.slots|
    requires forall k :: 0 <= k < |rest| ==> rest[k].slot < |b2.slots| && b2.slots[rest[k].slot].active
    requires forall k, l :: 0 <= k < l < |rest| ==> rest[k].slot != rest[l].slot
    requires forall k :: 0 <= k < |rest| ==> rest[k].slot >= |b1.slots| || !b1.slots[rest[k].slot].active
    requires forall j :: 0 <= j < |b1.slots| && b1.slots[j].active ==> b2.slots[j] == b1.slots[j]
    ensures forall k :: 0 <= k < |rest| + 1 ==>
      ([sh] + rest)[k].slot < |b2.slots| && b2.slots[([sh] + rest)[k].slot].active
    ensures forall k, l :: 0 <= k < l < |rest| + 1 ==> ([sh] + rest)[k].slot != ([sh] + rest)[l].slot
    ensures forall k :: 0 <= k < |rest| + 1 ==>
      ([sh] + rest)[k].slot >= |b.slots| || !b.slots[([sh] + rest)[k].slot].active
    ensures forall j :: 0 <= j < |b.slots| && b.slots[j].active ==> b2.slots[j] == b.slots[j]
  {
    var all := [sh] + rest;
    assert all[0] == sh && b2.slots[sh.slot] == b1.slots[sh.slot];
    assert forall k :: 0 < k < |all| ==> all[k] == rest[k - 1];
    forall k | 0 < k < |all| ensures all[k].slot != sh.slot {
      assert all[k] == rest[k - 1];
    }
  }

  /** Dropping the shields in order (dropping a `Vec<Shield>`). Each dropped shield's slot
      ends free and null; every other slot is untouched. */
  function ReleaseAll(b: Bag, shields: seq<Shield>): (r: Bag)
    requires forall k :: 0 <= k < |shields| ==> shields[k].slot < |b.slots|
    ensures |r.slots| == |b.slots|
    ensures forall k :: 0 <= k < |shields| ==> r.slots[shields[k].slot] == Slot(false, NULL)
    ensures forall j :: 0 <= j < |b.slots| && (forall k :: 0 <= k < |shields| ==> shields[k].slot != j) ==>
      r.slots[j] == b.slots[j]
    decreases |shields|
  {
    if |shields| == 0 then b
    else ReleaseAll(Release(b, shields[0]), shields[1..])
  }

  /** Dropping shields that hold distinct, leased slots frees exactly one slot per shield. */
  lemma {:induction false} ReleaseAllFrees(b: Bag, shields: seq<Shield>)
    requires forall k :: 0 <= k < |shields| ==> shields[k].slot < |b.slots| && b.slots[shields[k].slot].active
    requires forall k, l :: 0 <= k < l < |shields| ==> shields[k].slot != shields[l].slot
    ensures InactiveCount(ReleaseAll(b, shields).slots) == InactiveCount(b.slots) + |shields|
    decreases |shields|
  {
    if |shields| > 0 {
      var b1 := Release(b, shields[0]);
      ReleaseFreesOne(b, shields[0]);
      var rest := shields[1..];
      forall k | 0 <= k < |rest| ensures rest[k].slot < |b1.slots| && b1.slots[rest[k].slot].active {
        assert rest[k] == shields[k + 1];
      }
      forall k, l | 0 <= k < l < |rest| ensures rest[k].slot != rest[l].slot {
        assert rest[k] == shields[k + 1] && rest[l] == shields[l + 1];
      }
      ReleaseAllFrees(b1, rest);
    }
  }

  /** Acquiring no more shields than there are free slots adds no slot to the chain, and
      every shield gets one of the slots that already existed. */
  lemma {:induction false} RecycleWithinFree(b: Bag, m: nat)
    requires m <= InactiveCount(b.slots)
    ensures |AcquireMany(b, m).0.slots| == |b.slots|
    ensures forall k :: 0 <= k < m ==> AcquireMany(b, m).1[k].slot < |b.slots|
    decreases m
  {
    if m > 0 {
      AcquireRecycles(b);
      var b1 := AcquireSlot(b).bag;
      RecycleWithinFree(b1, m - 1);
    }
  }

  /** One step of `AcquireMany`: the first shield comes from `Shield::new` on the registry as
      given, the rest from the registry that call leaves. */
  lemma AcquireManyStep(b: Bag, m: nat)
    requires m > 0
    ensures AcquireMany(b, m).0 == AcquireMany(NewShield(b).0, m - 1).0
    ensures AcquireMany(b, m).1 == [NewShield(b).1] + AcquireMany(NewShield(b).0, m - 1).1
  {
  }

  /** Prepending the shield of slot `base` to shields of the following slots, in order. */
  lemma SlotsFrom(sh: Shield, rest: seq<Shield>, base: nat)
    requires sh.slot == base
    requires forall k :: 0 <= k < |rest| ==> rest[k].slot == base + 1 + k
    ensures forall k :: 0 <= k < |rest| + 1 ==> ([sh] + rest)[k].slot == base + k
  {
  }

  /** With every slot leased, a new shield gets a new slot at the head, and every slot is
      leased again. */
  lemma NewShieldWhenFull(b: Bag)
    requires forall i :: 0 <= i < |b.slots| ==> b.slots[i].active
    ensures NewShield(b).1.slot == |b.slots| && |NewShield(b).0.slots| == |b.slots| + 1
    ensures forall i :: 0 <= i < |NewShield(b).0.slots| ==> NewShield(b).0.slots[i].active
  {
  }

  /** With every slot leased, `m` acquisitions link in `m` new slots, one per shield, all
      leased. */
  lemma {:induction false} AcquireManyWhenFull(b: Bag, m: nat)
    requires forall i :: 0 <= i < |b.slots| ==> b.slots[i].active
    ensures |AcquireMany(b, m).0.slots| == |b.slots| + m
    ensures forall k :: 0 <= k < m ==> AcquireMany(b, m).1[k].slot == |b.slots| + k
    ensures forall i :: 0 <= i < |AcquireMany(b, m).0.slots| ==> AcquireMany(b, m).0.slots[i].active
    decreases m
  {
    if m > 0 {
      NewShieldWhenFull(b);
      var b1, sh := NewShield(b).0, NewShield(b).1;
      AcquireManyWhenFull(b1, m - 1);
      AcquireManyStep(b, m);
      SlotsFrom(sh, AcquireMany(b1, m - 1).1, |b.slots|);
    }
  }

  /** Leasing `n` shields from a new registry gives the shields slots `0 .. n` in order,
      and dropping them all leaves `n` free slots. */
  lemma AcquireThenReleaseAll(n: nat)
    ensures |AcquireMany(NewBag(), n).0.slots| == n
    ensures forall k :: 0 <= k < n ==> AcquireMany(NewBag(), n).1[k].slot == k
    ensures InactiveCount(ReleaseAll(AcquireMany(NewBag(), n).0, AcquireMany(NewBag(), n).1).slots) == n
  {
    AcquireManyWhenFull(NewBag(), n);
    var b1, olds := AcquireMany(NewBag(), n).0, AcquireMany(NewBag(), n).1;
    var b2 := ReleaseAll(b1, olds);
    forall i | 0 <= i < |b2.slots| ensures !b2.slots[i].active {
      assert olds[i].slot == i;
    }
    InactiveCountAllFree(b2.slots);
  }

  /** The recycling scenario: lease `n` shields from a new registry, drop them all, then lease
      `m <= n` shields. No slot is added, and every new shield reuses one of the old slots. */
  lemma RecycleSlots(n: nat, m: nat)
    requires m <= n
    ensures
      var (b1, olds) := AcquireMany(NewBag(), n);
      var b2 := ReleaseAll(b1, olds);
      var (b3, news) := AcquireMany(b2, m);
      && |b1.slots| == n
      && |b3.slots| == n
      && forall k :: 0 <= k < m ==> exists j :: 0 <= j < n && olds[j].slot == news[k].slot
  {
    AcquireThenReleaseAll(n);
    var b1, olds := AcquireMany(NewBag(), n).0, AcquireMany(NewBag(), n).1;
    var b2 := ReleaseAll(b1, olds);
    RecycleWithinFree(b2, m);
    var news := AcquireMany(b2, m).1;
    forall k | 0 <= k < m ensures exists j :: 0 <= j < n && olds[j].slot == news[k].slot {
      assert olds[news[k].slot].slot == news[k].slot;
    }
  }

  /** Recycling from any registry: lease `n` shields, drop them all, then lease `m <= n`
      shields. No slot is added to the chain the first leases left. */
  lemma RecycleAfterRelease(b: Bag, n: nat, m: nat)
    requires m <= n
    ensures
      var (b1, olds) := AcquireMany(b, n);
      var (b3, news) := AcquireMany(ReleaseAll(b1, olds), m);
      && |b3.slots| == |b1.slots|
      && forall k :: 0 <= k < m ==> news[k].slot < |b1.slots|
  {
    var b1, olds := AcquireMany(b, n).0, AcquireMany(b, n).1;
    ReleaseAllFrees(b1, olds);
    RecycleWithinFree(ReleaseAll(b1, olds), m);
  }
}
