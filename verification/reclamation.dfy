/** One reader and one writer going through the whole protocol, in one sequential order:
    the reader's shield keeps a retired pointer alive, and dropping it lets the pointer go. */
module Reclamation {
  import opened Hazard
  import opened RegistryProperties
  import opened ShieldProperties
  import opened Retirement

  /** A fresh shield on `p` publishes it, and dropping that shield withdraws it again when no
      other slot published it before. */
  lemma ProtectFreshThenRelease(b: Bag, p: Ptr)
    requires p != NULL && p !in AllHazards(b)
    ensures
      var (b1, sh) := ProtectFresh(b, p);
      && sh.slot < |b1.slots|
      && p in AllHazards(b1)
      && p !in AllHazards(Release(b1, sh))
  {
    var (b1, sh) := ProtectFresh(b, p);
    ReleaseWithdraws(b1, sh);
  }

  /** Retiring a pointer the registry publishes never frees it and leaves it buffered. */
  lemma RetireKeepsPublished(rs: RetiredSet, b: Bag, p: Ptr, d: Deleter)
    requires p in AllHazards(b)
    ensures forall i :: 0 <= i < |Retire(rs, b, p, d).freed| ==> Retire(rs, b, p, d).freed[i].ptr != p
    ensures Retired(p, d) in Retire(rs, b, p, d).queue.inner
  {
    var retired := Retire(rs, b, p, d);
    assert Retired(p, d) in multiset(retired.queue.inner) + multiset(retired.freed);
  }

  /** The reader protects `p`, loaded from a cell that still holds it. The writer then
      unlinks `p` (the cell now holds something else) and retires it. Whatever that `retire`
      collects, `p` is not freed and stays buffered. Once the reader drops its shield, the
      next `collect` frees `p`. This needs that no other reader publishes `p`. */
  lemma ShieldDelaysReclamation(b: Bag, rs: RetiredSet, p: Ptr, d: Deleter)
    requires p != NULL && p !in AllHazards(b)
    ensures
      var (b1, sh) := ProtectFresh(b, p);
      var retired := Retire(rs, b1, p, d);
      && sh.slot < |b1.slots|
      && (forall i :: 0 <= i < |retired.freed| ==> retired.freed[i].ptr != p)
      && Retired(p, d) in retired.queue.inner
      && Retired(p, d) in Collect(retired.queue, Release(b1, sh)).freed
  {
    ProtectFreshThenRelease(b, p);
    var (b1, sh) := ProtectFresh(b, p);
    RetireKeepsPublished(rs, b1, p, d);
  }
}
