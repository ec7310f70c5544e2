/** Properties of the shield protocol against the registry snapshot: a protected pointer is
    in `all_hazards` while its shield lives and leaves it when the shield is dropped, and the
    two snapshot scenarios of the registry's tests. */
module ShieldProperties {
  import opened Hazard
  import opened RegistryProperties

  /** A source cell nobody writes: every load returns `v`. */
  ghost predicate Unchanged(loads: seq<Ptr>, v: Ptr) {
    |loads| >= 2 && forall i :: 0 <= i < |loads| ==> loads[i] == v
  }

  /** With the source cell unchanged, `protect` returns the cell's value on its first round,
      the shield's slot publishes it, and so it is in the snapshot unless it is null. */
  lemma ProtectUnchangedSource(b: Bag, sh: Shield, loads: seq<Ptr>, v: Ptr)
    requires sh.slot < |b.slots| && Unchanged(loads, v)
    ensures Settles(loads)
    ensures Protect(b, sh, loads).pointer == v
    ensures Protect(b, sh, loads).bag.slots[sh.slot].hazard == v
    ensures v != NULL ==> v in AllHazards(Protect(b, sh, loads).bag)
  {
    assert loads[0] == loads[1];
  }

  /** Dropping a shield withdraws its pointer from the snapshot, unless another slot also
      publishes it; every other snapshot member stays. */
  lemma ReleaseWithdraws(b: Bag, sh: Shield)
    requires sh.slot < |b.slots|
    ensures forall q :: q in AllHazards(Release(b, sh)) <==> PublishedElsewhere(b, sh.slot, q)
  {
    SnapshotAfterSlotChange(b, Release(b, sh), sh.slot);
  }

  /** A protected pointer is in the snapshot while the shield lives and, when no other slot
      publishes it, absent once the shield is dropped. */
  lemma ProtectThenRelease(b: Bag, sh: Shield, loads: seq<Ptr>, v: Ptr)
    requires sh.slot < |b.slots| && Unchanged(loads, v) && v != NULL
    requires !PublishedElsewhere(b, sh.slot, v)
    ensures Settles(loads)
    ensures v in AllHazards(Protect(b, sh, loads).bag)
    ensures v !in AllHazards(Release(Protect(b, sh, loads).bag, sh))
  {
    ProtectUnchangedSource(b, sh, loads, v);
    ReleaseWithdraws(Protect(b, sh, loads).bag, sh);
  }

  /** One iteration of the snapshot tests: a new shield protects `v` read from a cell that
      holds `v` and nobody changes. */
  function ProtectFresh(b: Bag, v: Ptr): (r: (Bag, Shield))
    ensures r.1.slot < |r.0.slots| && r.0.slots[r.1.slot].active
    ensures |b.slots| <= |r.0.slots|
    ensures r.0.slots[r.1.slot].hazard == v
    ensures forall j :: 0 <= j < |b.slots| && j != r.1.slot ==> r.0.slots[j] == b.slots[j]
    ensures r.1.slot < |b.slots| ==> !b.slots[r.1.slot].active
  {
    var (b1, sh) := NewShield(b);
    assert Unchanged([v, v], v);
    ProtectUnchangedSource(b1, sh, [v, v], v);
    (Protect(b1, sh, [v, v]).bag, sh)
  }

  /** Protecting each value with a shield that is leaked (`mem::forget`), so never dropped. */
  function ProtectLeaking(b: Bag, values: seq<Ptr>): Bag
    decreases |values|
  {
    if |values| == 0 then b
    else ProtectLeaking(ProtectFresh(b, values[0]).0, values[1..])
  }

  /** Protecting each value with a shield that is dropped at the end of its iteration. */
  function ProtectReleasing(b: Bag, values: seq<Ptr>): Bag
    decreases |values|
  {
    if |values| == 0 then b
    else
      var (b1, sh) := ProtectFresh(b, values[0]);
      ProtectReleasing(Release(b1, sh), values[1..])
  }

  /** Protecting `v` on a registry whose idle slots publish nothing adds `v` to the snapshot
      and keeps everything that was already there. */
  lemma ProtectFreshPublishes(b: Bag, v: Ptr)
    requires Idle(b)
    ensures Idle(ProtectFresh(b, v).0)
    ensures v != NULL ==> v in AllHazards(ProtectFresh(b, v).0)
    ensures AllHazards(b) <= AllHazards(ProtectFresh(b, v).0)
  {
    var (c, sh) := ProtectFresh(b, v);
    forall q | q in AllHazards(b) ensures q in AllHazards(c) {
      var j :| 0 <= j < |b.slots| && b.slots[j].hazard == q;
      assert j != sh.slot;
      assert c.slots[j].hazard == q;
    }
  }

  /** Leaked shields keep every protected value in the snapshot (the registry's
      "all_hazards_protected" test, one thread's iterations after another). */
  lemma {:induction false} LeakedShieldsStayPublished(b: Bag, values: seq<Ptr>)
    requires Idle(b)
    ensures Idle(ProtectLeaking(b, values))
    ensures AllHazards(b) <= AllHazards(ProtectLeaking(b, values))
    ensures forall i :: 0 <= i < |values| && values[i] != NULL ==> values[i] in AllHazards(ProtectLeaking(b, values))
    decreases |values|
  {
    if |values| > 0 {
      var b1 := ProtectFresh(b, values[0]).0;
      ProtectFreshPublishes(b, values[0]);
      LeakedShieldsStayPublished(b1, values[1..]);
      forall i | 0 <= i < |values| && values[i] != NULL
        ensures values[i] in AllHazards(ProtectLeaking(b, values))
      {
        if i > 0 {
          assert values[i] == values[1..][i - 1];
        }
      }
    }
  }

  /** Every slot is free and null: no shield is alive. */
  ghost predicate Quiescent(b: Bag) {
    forall i :: 0 <= i < |b.slots| ==> b.slots[i] == Slot(false, NULL)
  }

  /** A quiescent registry publishes nothing. */
  lemma QuiescentPublishesNothing(b: Bag)
    requires Quiescent(b)
    ensures AllHazards(b) == {}
  {
  }

  /** Dropped shields leave nothing behind: the snapshot is empty afterwards (the registry's
      "all_hazards_unprotected" test, one thread's iterations after another). */
  lemma {:induction false} ReleasedShieldsLeaveNothing(b: Bag, values: seq<Ptr>)
    requires Quiescent(b)
    ensures Quiescent(ProtectReleasing(b, values))
    ensures AllHazards(ProtectReleasing(b, values)) == {}
    decreases |values|
  {
    if |values| > 0 {
      var (b1, sh) := ProtectFresh(b, values[0]);
      var b2 := Release(b1, sh);
      assert Quiescent(b2) by {
        forall i | 0 <= i < |b2.slots| ensures b2.slots[i] == Slot(false, NULL) {
          if i != sh.slot {
            assert i < |b.slots|;
          }
        }
      }
      ReleasedShieldsLeaveNothing(b2, values[1..]);
    }
    QuiescentPublishesNothing(ProtectReleasing(b, values));
  }

  /** Both snapshot tests from a new registry. */
  lemma SnapshotScenarios(values: seq<Ptr>)
    ensures forall i :: 0 <= i < |values| && values[i] != NULL ==> values[i] in AllHazards(ProtectLeaking(NewBag(), values))
    ensures AllHazards(ProtectReleasing(NewBag(), values)) == {}
  {
    LeakedShieldsStayPublished(NewBag(), values);
    ReleasedShieldsLeaveNothing(NewBag(), values);
  }
}
