/** The hazard-slot registry (`HazardBag`) and the reader-side `Shield`.

  Pointers are natural numbers and `NULL` (0) is the null pointer.

  The registry is a grow-only chain of slots. New slots are linked in at the head, and
  no slot is ever unlinked or moved. So a slot is identified by its allocation position:
  `slots[0]` is the oldest slot (the tail of the chain) and `slots[|slots| - 1]` is the
  current head. Linking a slot in at the head is appending at the end of `slots`.
  `Chain` gives the head-to-tail view that `try_acquire_inactive` and `all_hazards` walk.
*/
module Hazard {
  import opened Wrappers

  type Ptr = nat

  /** The null pointer. */
  const NULL: Ptr := 0

  /** One hazard slot: whether a shield leases it, and the pointer it publishes. */
  datatype Slot = Slot(active: bool, hazard: Ptr)

  /** The registry: every slot ever allocated, oldest first. */
  datatype Bag = Bag(slots: seq<Slot>)

  /** A reader's lease on one slot, named by the slot's allocation position. */
  datatype Shield = Shield(slot: nat)

  /** A registry together with the slot that was just leased from it. */
  datatype Lease = Lease(bag: Bag, slot: nat)

  /** A registry after a `try_protect`, with the validation outcome. */
  datatype Attempt = Attempt(bag: Bag, outcome: Result<(), Ptr>)

  /** A registry after a `protect`, with the pointer that ended up protected. */
  datatype Protected = Protected(bag: Bag, pointer: Ptr)

  /** The slot chain in the order the registry's loops walk it, from the head to the oldest slot. */
  function Chain(b: Bag): seq<Slot> {
    Reverse(b.slots)
  }

  function Reverse<T>(s: seq<T>): seq<T> {
    if |s| == 0 then [] else [s[|s| - 1]] + Reverse(s[..|s| - 1])
  }

  /** `a` and `c` have the same length and differ at most at position `i`. */
  ghost predicate SameExcept(a: seq<Slot>, c: seq<Slot>, i: nat) {
    |a| == |c| && forall j :: 0 <= j < |a| && j != i ==> a[j] == c[j]
  }

  /** `p` is a non-null pointer that some slot of `b` publishes. */
  ghost predicate Published(b: Bag, p: Ptr) {
    p != NULL && exists i :: 0 <= i < |b.slots| && b.slots[i].hazard == p
  }

  /** Every slot that no shield leases publishes nothing. Leasing, dropping, and any store
      through a leased slot preserve this; a store through a slot no shield leases need not. */
  ghost predicate Idle(b: Bag) {
    forall i :: 0 <= i < |b.slots| && !b.slots[i].active ==> b.slots[i].hazard == NULL
  }

  /** `HazardSlot::new`: a freshly allocated slot is already leased and publishes nothing. */
  function NewSlot(): (r: Slot)
    ensures r.active && r.hazard == NULL
  {
    Slot(true, NULL)
  }

  /** `HazardBag::new`: an empty chain. */
  function NewBag(): (b: Bag)
    ensures |b.slots| == 0
    ensures forall p :: !Published(b, p)
  {
    Bag([])
  }

  /** The walk of `try_acquire_inactive`: the first inactive slot met from the head. */
  function FirstInactive(slots: seq<Slot>): (r: Option<nat>)
    ensures r.Some? ==> r.value < |slots| && !slots[r.value].active
    ensures r.Some? ==> forall j :: r.value < j < |slots| ==> slots[j].active
    ensures r.None? <==> forall i :: 0 <= i < |slots| ==> slots[i].active
  {
    if |slots| == 0 then None
    else if !slots[|slots| - 1].active then Some(|slots| - 1)
    else FirstInactive(slots[..|slots| - 1])
  }

  /** `try_acquire_inactive`: lease an inactive slot if there is one. Only its flag changes. */
  function TryAcquireInactive(b: Bag): (r: Option<Lease>)
    ensures r.None? <==> forall i :: 0 <= i < |b.slots| ==> b.slots[i].active
    ensures r.Some? ==>
      && r.value.slot < |b.slots|
      && SameExcept(b.slots, r.value.bag.slots, r.value.slot)
      && !b.slots[r.value.slot].active
      && r.value.bag.slots[r.value.slot].active
      && r.value.bag.slots[r.value.slot].hazard == b.slots[r.value.slot].hazard
  {
    match FirstInactive(b.slots)
    case None => None
    case Some(i) => Some(Lease(Bag(b.slots[i := b.slots[i].(active := true)]), i))
  }

  /** `acquire_slot`: recycle an inactive slot, or link a new leased, null slot in at the head.
      Either way the caller gets a slot that no shield held before. */
  function AcquireSlot(b: Bag): (r: Lease)
    ensures r.slot < |r.bag.slots| && r.bag.slots[r.slot].active
    ensures r.slot < |b.slots| ==> !b.slots[r.slot].active
    ensures (exists i :: 0 <= i < |b.slots| && !b.slots[i].active) ==>
      && r.slot < |b.slots|
      && r.bag.slots[r.slot].hazard == b.slots[r.slot].hazard
      && SameExcept(b.slots, r.bag.slots, r.slot)
    ensures (forall i :: 0 <= i < |b.slots| ==> b.slots[i].active) ==>
      && r.slot == |b.slots|
      && r.bag.slots[r.slot] == Slot(true, NULL)
      && Chain(r.bag) == [Slot(true, NULL)] + Chain(b)
  {
    match TryAcquireInactive(b)
    case Some(lease) => lease
    case None =>
      var grown := Bag(b.slots + [NewSlot()]);
      assert grown.slots[..|b.slots|] == b.slots;
      Lease(grown, |b.slots|)
  }

  /** `Shield::new`: lease a slot from the registry. */
  function NewShield(b: Bag): (r: (Bag, Shield))
    ensures r.1.slot < |r.0.slots| && r.0.slots[r.1.slot].active
    ensures |b.slots| <= |r.0.slots| <= |b.slots| + 1
    ensures r.1.slot < |b.slots| ==> !b.slots[r.1.slot].active
    ensures forall j :: 0 <= j < |b.slots| && j != r.1.slot ==> r.0.slots[j] == b.slots[j]
    ensures (exists i :: 0 <= i < |b.slots| && !b.slots[i].active) ==>
      && |r.0.slots| == |b.slots|
      && r.0.slots[r.1.slot].hazard == b.slots[r.1.slot].hazard
    ensures (forall i :: 0 <= i < |b.slots| ==> b.slots[i].active) ==>
      && r.1.slot == |b.slots|
      && r.0.slots[r.1.slot] == Slot(true, NULL)
  {
    var lease := AcquireSlot(b);
    (lease.bag, Shield(lease.slot))
  }

  /** `Shield::set`: store `p` (possibly null) in the shield's slot. The lease is untouched. */
  function Set(b: Bag, sh: Shield, p: Ptr): (r: Bag)
    requires sh.slot < |b.slots|
    ensures SameExcept(b.slots, r.slots, sh.slot)
    ensures r.slots[sh.slot].hazard == p
    ensures r.slots[sh.slot].active == b.slots[sh.slot].active
  {
    Bag(b.slots[sh.slot := b.slots[sh.slot].(hazard := p)])
  }

  /** `Shield::clear`: stop publishing anything. */
  function Clear(b: Bag, sh: Shield): (r: Bag)
    requires sh.slot < |b.slots|
    ensures SameExcept(b.slots, r.slots, sh.slot)
    ensures r.slots[sh.slot].hazard == NULL
    ensures r.slots[sh.slot].active == b.slots[sh.slot].active
  {
    Set(b, sh, NULL)
  }

  /** `Shield::validate`: does the source cell still hold `p`? If not, report what it holds.
      It takes no registry, so it changes no state. */
  function Validate(p: Ptr, src: Ptr): (r: Result<(), Ptr>)
    ensures r.Ok? <==> src == p
    ensures r.Err? ==> r.error == src && r.error != p
  {
    if src == p then Ok(()) else Err(src)
  }

  /** `Shield::try_protect`: publish `p`, then validate it against the source cell, clearing
      the slot on a mismatch. The slot never ends up publishing a value the source does not hold. */
  function TryProtect(b: Bag, sh: Shield, p: Ptr, src: Ptr): (r: Attempt)
    requires sh.slot < |b.slots|
    ensures SameExcept(b.slots, r.bag.slots, sh.slot)
    ensures r.outcome.Ok? <==> src == p
    ensures r.outcome.Err? ==> r.outcome.error == src
    ensures r.outcome.Ok? ==> r.bag.slots[sh.slot].hazard == p
    ensures r.outcome.Err? ==> r.bag.slots[sh.slot].hazard == NULL
    ensures r.bag.slots[sh.slot].hazard == NULL || r.bag.slots[sh.slot].hazard == src
    ensures r.bag.slots[sh.slot].active == b.slots[sh.slot].active
  {
    var published := Set(b, sh, p);
    match Validate(p, src)
    case Ok(_) => Attempt(published, Ok(()))
    case Err(current) => Attempt(Clear(published, sh), Err(current))
  }

  /** The successive values read from a source cell eventually repeat: writers stopped
      changing it for at least one load-validate round. */
  ghost predicate Settles(loads: seq<Ptr>) {
    exists k: nat :: k + 1 < |loads| && loads[k] == loads[k + 1]
  }

  /** `k` is the first round at which the load and the validating re-load agree. */
  ghost predicate FirstSettle(loads: seq<Ptr>, k: nat) {
    && k + 1 < |loads|
    && loads[k] == loads[k + 1]
    && forall j :: 0 <= j < k ==> loads[j] != loads[j + 1]
  }

  /** A source that settles and has just changed still settles from its next value on. */
  lemma SettlesAfterMismatch(loads: seq<Ptr>)
    requires Settles(loads) && loads[0] != loads[1]
    ensures Settles(loads[1..])
  {
    var k: nat :| k + 1 < |loads| && loads[k] == loads[k + 1];
    assert loads[1..][k - 1] == loads[1..][k];
  }

  /** A first settling round found after a mismatch is also the first of the whole trace. */
  lemma FirstSettleAfterMismatch(loads: seq<Ptr>, p: Ptr)
    requires |loads| >= 2 && loads[0] != loads[1]
    requires exists k: nat :: FirstSettle(loads[1..], k) && p == loads[1..][k]
    ensures exists k: nat :: FirstSettle(loads, k) && p == loads[k]
  {
    var k: nat :| FirstSettle(loads[1..], k) && p == loads[1..][k];
    assert FirstSettle(loads, k + 1);
  }

  /** `Shield::protect`: `loads` are the values that successive loads of the source cell
      return (the first load, then the re-load of each validation). Each mismatch retries
      with the newly read value. The loop ends at the first round whose value is still in
      the cell when it is re-read, and the slot then publishes exactly that value. */
  function Protect(b: Bag, sh: Shield, loads: seq<Ptr>): (r: Protected)
    requires sh.slot < |b.slots|
    requires Settles(loads)
    ensures SameExcept(b.slots, r.bag.slots, sh.slot)
    ensures exists k: nat :: FirstSettle(loads, k) && r.pointer == loads[k]
    ensures r.bag.slots[sh.slot].hazard == r.pointer
    ensures r.bag.slots[sh.slot].active == b.slots[sh.slot].active
    decreases |loads|
  {
    var attempt := TryProtect(b, sh, loads[0], loads[1]);
    match attempt.outcome
    case Ok(_) =>
      assert FirstSettle(loads, 0);
      Protected(attempt.bag, loads[0])
    case Err(current) =>
      SettlesAfterMismatch(loads);
      var r := Protect(attempt.bag, sh, loads[1..]);
      FirstSettleAfterMismatch(loads, r.pointer);
      r
  }

  /** `Drop for Shield`: clear the slot, then give the lease back. */
  function Release(b: Bag, sh: Shield): (r: Bag)
    requires sh.slot < |b.slots|
    ensures SameExcept(b.slots, r.slots, sh.slot)
    ensures r.slots[sh.slot] == Slot(false, NULL)
  {
    var cleared := Clear(b, sh);
    Bag(cleared.slots[sh.slot := cleared.slots[sh.slot].(active := false)])
  }

  /** The walk of `all_hazards`, from the head down to the oldest slot. */
  function HazardsOf(slots: seq<Slot>): (r: set<Ptr>)
    ensures forall p :: p in r <==> p != NULL && exists i :: 0 <= i < |slots| && slots[i].hazard == p
  {
    if |slots| == 0 then {}
    else
      var rest := slots[..|slots| - 1];
      var h := slots[|slots| - 1].hazard;
      var tail := HazardsOf(rest);
      assert forall i :: 0 <= i < |rest| ==> rest[i] == slots[i];
      if h != NULL then {h} + tail else tail
  }

  /** `all_hazards`: the set of every non-null pointer some slot publishes. */
  function AllHazards(b: Bag): (r: set<Ptr>)
    ensures forall p :: p in r <==> Published(b, p)
  {
    HazardsOf(b.slots)
  }
}
